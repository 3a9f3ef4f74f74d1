/** String helpers shared by the model: Python's `str` comparison, `str.lower`,
    `str.endswith`, `str.startswith` and the `in` substring test, on `seq<char>`. */
module Strings {

  /** Python compares `str` values lexicographically by code point: a prefix comes first,
      and a proper extension of a string comes after it. */
  predicate LexLe(a: string, b: string)
    ensures StartsWith(b, a) ==> LexLe(a, b)
    ensures StartsWith(a, b) && a != b ==> !LexLe(a, b)
  {
    if a == [] then true
    else if b == [] then false
    else if a[0] != b[0] then a[0] < b[0]
    else
      assert StartsWith(b, a) ==> StartsWith(b[1..], a[1..]) by {
        if StartsWith(b, a) {
          assert b[1..][..|a| - 1] == b[..|a|][1..];
        }
      }
      assert StartsWith(a, b) && a != b ==> StartsWith(a[1..], b[1..]) && a[1..] != b[1..] by {
        if StartsWith(a, b) && a != b {
          assert a[1..][..|b| - 1] == a[..|b|][1..];
          assert a == [a[0]] + a[1..] && b == [b[0]] + b[1..];
        }
      }
      LexLe(a[1..], b[1..])
  }

  /** Past a common prefix, the first differing character decides, by code point. */
  lemma {:induction false} LexLeFirstDifference(a: string, b: string, i: nat)
    requires i < |a| && i < |b| && a[..i] == b[..i] && a[i] != b[i]
    ensures LexLe(a, b) <==> a[i] < b[i]
  {
    if i > 0 {
      assert a[0] == a[..i][0] && b[0] == b[..i][0];
      assert a[1..][..i - 1] == a[..i][1..] && b[1..][..i - 1] == b[..i][1..];
      LexLeFirstDifference(a[1..], b[1..], i - 1);
    }
  }

  predicate LexLt(a: string, b: string)
  {
    LexLe(a, b) && a != b
  }

  lemma {:induction false} LexLeReflexive(a: string)
    ensures LexLe(a, a)
  {
    if a != [] {
      LexLeReflexive(a[1..]);
    }
  }

  lemma {:induction false} LexLeTotal(a: string, b: string)
    ensures LexLe(a, b) || LexLe(b, a)
  {
    if a != [] && b != [] && a[0] == b[0] {
      LexLeTotal(a[1..], b[1..]);
    }
  }

  lemma {:induction false} LexLeAntisymmetric(a: string, b: string)
    requires LexLe(a, b) && LexLe(b, a)
    ensures a == b
  {
    if a != [] && b != [] {
      LexLeAntisymmetric(a[1..], b[1..]);
      assert a == [a[0]] + a[1..];
      assert b == [b[0]] + b[1..];
    }
  }

  lemma {:induction false} LexLeTransitive(a: string, b: string, c: string)
    requires LexLe(a, b) && LexLe(b, c)
    ensures LexLe(a, c)
  {
    if a != [] && b != [] && c != [] && a[0] == b[0] && b[0] == c[0] {
      LexLeTransitive(a[1..], b[1..], c[1..]);
    }
  }

  /** `str.lower` on the ASCII letters; every other character is kept. */
  function LowerChar(c: char): char
  {
    if 'A' <= c <= 'Z' then (c as int + 32) as char else c
  }

  function Lower(s: string): (lowered: string)
    ensures |lowered| == |s|
    ensures forall i :: 0 <= i < |lowered| ==> !('A' <= lowered[i] <= 'Z')
    ensures forall i :: 0 <= i < |s| && 'A' <= s[i] <= 'Z' ==> lowered[i] == (s[i] as int + 32) as char
    ensures forall i :: 0 <= i < |s| && !('A' <= s[i] <= 'Z') ==> lowered[i] == s[i]
  {
    seq(|s|, i requires 0 <= i < |s| => LowerChar(s[i]))
  }

  /** `y` is `x` with the letter case of some ASCII letters switched. */
  predicate SameUpToCase(x: string, y: string)
  {
    |x| == |y|
    && forall j :: 0 <= j < |x| ==>
      x[j] == y[j]
      || ('A' <= x[j] <= 'Z' && y[j] == (x[j] as int + 32) as char)
      || ('a' <= x[j] <= 'z' && y[j] == (x[j] as int - 32) as char)
  }

  /** Switching the case of letters never changes the lowercased string. */
  lemma LowerIgnoresCase(x: string, y: string)
    requires SameUpToCase(x, y)
    ensures Lower(x) == Lower(y)
  {
    forall j | 0 <= j < |x|
      ensures Lower(x)[j] == Lower(y)[j]
    {
      assert x[j] == y[j] || LowerChar(x[j]) == LowerChar(y[j]);
    }
  }

  predicate StartsWith(s: string, prefix: string)
  {
    |prefix| <= |s| && s[..|prefix|] == prefix
  }

  predicate EndsWith(s: string, suffix: string)
  {
    |suffix| <= |s| && s[|s| - |suffix|..] == suffix
  }

  /** `s.endswith(suffix)` holds exactly when `s` is some string followed by `suffix`. */
  lemma EndsWithAppend(s: string, suffix: string)
    ensures EndsWith(s, suffix) <==> exists t :: s == t + suffix
  {
    if EndsWith(s, suffix) {
      assert s == s[..|s| - |suffix|] + suffix;
    }
    if exists t :: s == t + suffix {
      var t :| s == t + suffix;
      assert s[|s| - |suffix|..] == suffix;
    }
  }

  /** Python's `needle in s` for strings. */
  predicate Contains(s: string, needle: string)
    decreases |s|
  {
    StartsWith(s, needle) || (s != [] && Contains(s[1..], needle))
  }

  /** `needle in s` holds exactly when `needle` occurs at some offset of `s`. */
  lemma ContainsAt(s: string, needle: string)
    ensures Contains(s, needle) <==> exists i :: 0 <= i <= |s| - |needle| && StartsWith(s[i..], needle)
  {
    if Contains(s, needle) {
      var i := ContainsOffset(s, needle);
    }
    if exists i :: 0 <= i <= |s| - |needle| && StartsWith(s[i..], needle) {
      var i :| 0 <= i <= |s| - |needle| && StartsWith(s[i..], needle);
      OffsetContains(s, needle, i);
    }
  }

  /** An occurrence found by `needle in s`. */
  lemma {:induction false} ContainsOffset(s: string, needle: string) returns (i: nat)
    requires Contains(s, needle)
    ensures i <= |s| - |needle| && StartsWith(s[i..], needle)
    decreases |s|
  {
    if StartsWith(s, needle) {
      i := 0;
      assert s[0..] == s;
    } else {
      var j := ContainsOffset(s[1..], needle);
      assert s[1..][j..] == s[j + 1..];
      i := j + 1;
    }
  }

  /** An occurrence at offset `i` makes `needle in s` true. */
  lemma {:induction false} OffsetContains(s: string, needle: string, i: nat)
    requires i <= |s| - |needle| && StartsWith(s[i..], needle)
    ensures Contains(s, needle)
    decreases i
  {
    if i == 0 {
      assert s[0..] == s;
    } else {
      assert s[1..][i - 1..] == s[i..];
      OffsetContains(s[1..], needle, i - 1);
    }
  }

  /** A string lacking one of the needle's characters cannot contain the needle. */
  lemma NotContainsMissingChar(s: string, needle: string, k: nat)
    requires k < |needle| && needle[k] !in s
    ensures !Contains(s, needle)
  {
    ContainsAt(s, needle);
  }
}
