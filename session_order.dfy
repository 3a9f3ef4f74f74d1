/** Chronological order of one subject's sessions: Python's stable `sorted` under the key
    (timestamp, original label), where a missing timestamp sorts after every real one. */
module SessionOrder {
  import opened Strings
  import opened Archive
  import opened SessionGrouping

  /** The first component of the key: a real timestamp before a later one, and every real
      timestamp before a missing one. */
  predicate TimestampBefore(a: Option<int>, b: Option<int>)
    ensures TimestampBefore(a, b) ==> a.Some? && a != b
    ensures a.Some? && b.None? ==> TimestampBefore(a, b)
    ensures a.Some? && b.Some? ==> (TimestampBefore(a, b) <==> a.value < b.value)
  {
    match a
    case None => false
    case Some(t) => b.None? || t < b.value
  }

  /** Tuple comparison on (timestamp, original label): the timestamps decide unless they are
      equal (or both missing), and then the labels decide. */
  predicate KeyLe(a: SessionRecord, b: SessionRecord)
  {
    TimestampBefore(a.timestamp, b.timestamp)
      || (a.timestamp == b.timestamp && LexLe(a.originalLabel, b.originalLabel))
  }

  /** What the key comparison amounts to, case by case: a missing timestamp never precedes a
      real one, a real one always precedes a missing one, two different real timestamps compare
      as numbers, and equal timestamps leave the decision to the labels. */
  lemma KeyLeCases(a: SessionRecord, b: SessionRecord)
    ensures a.timestamp.None? && b.timestamp.Some? ==> !KeyLe(a, b)
    ensures a.timestamp.Some? && b.timestamp.None? ==> KeyLe(a, b)
    ensures a.timestamp.Some? && b.timestamp.Some? && a.timestamp.value != b.timestamp.value ==>
      (KeyLe(a, b) <==> a.timestamp.value < b.timestamp.value)
    ensures a.timestamp == b.timestamp ==> (KeyLe(a, b) <==> LexLe(a.originalLabel, b.originalLabel))
  {
  }

  predicate SameKey(a: SessionRecord, b: SessionRecord)
  {
    a.timestamp == b.timestamp && a.originalLabel == b.originalLabel
  }

  lemma KeyLeTotal(a: SessionRecord, b: SessionRecord)
    ensures KeyLe(a, b) || KeyLe(b, a)
  {
    LexLeTotal(a.originalLabel, b.originalLabel);
  }

  lemma KeyLeTransitive(a: SessionRecord, b: SessionRecord, c: SessionRecord)
    requires KeyLe(a, b) && KeyLe(b, c)
    ensures KeyLe(a, c)
  {
    if a.timestamp == b.timestamp == c.timestamp {
      LexLeTransitive(a.originalLabel, b.originalLabel, c.originalLabel);
    }
  }

  /** Two records each at most the other have the same key. */
  lemma KeyLeAntisymmetric(a: SessionRecord, b: SessionRecord)
    requires KeyLe(a, b) && KeyLe(b, a)
    ensures SameKey(a, b)
  {
    LexLeAntisymmetric(a.originalLabel, b.originalLabel);
  }

  /** Records with the same key compare alike with everything else. */
  lemma SameKeyCompares(a: SessionRecord, b: SessionRecord, c: SessionRecord)
    requires SameKey(a, b)
    ensures KeyLe(a, c) == KeyLe(b, c) && KeyLe(c, a) == KeyLe(c, b)
  {
  }

  ghost predicate Sorted(s: seq<SessionRecord>)
  {
    forall i, j :: 0 <= i < j < |s| ==> KeyLe(s[i], s[j])
  }

  /** Inserts `x` after every leading record whose key is not greater than its own. */
  function Insert(x: SessionRecord, sorted: seq<SessionRecord>): (r: seq<SessionRecord>)
    ensures multiset(r) == multiset(sorted) + multiset{x}
  {
    if sorted == [] then [x]
    else if !KeyLe(sorted[0], x) then [x] + sorted
    else
      assert sorted == [sorted[0]] + sorted[1..];
      [sorted[0]] + Insert(x, sorted[1..])
  }

  /** Inserting into a sorted list gives a sorted list. */
  lemma {:induction false} InsertSorted(x: SessionRecord, sorted: seq<SessionRecord>)
    requires Sorted(sorted)
    ensures Sorted(Insert(x, sorted))
  {
    if sorted == [] {
    } else if !KeyLe(sorted[0], x) {
      KeyLeTotal(sorted[0], x);
      forall j | 0 <= j < |sorted| ensures KeyLe(x, sorted[j]) {
        if j > 0 { KeyLeTransitive(x, sorted[0], sorted[j]); }
      }
    } else {
      var rest := Insert(x, sorted[1..]);
      InsertSorted(x, sorted[1..]);
      assert sorted == [sorted[0]] + sorted[1..];
      forall j | 0 <= j < |rest| ensures KeyLe(sorted[0], rest[j]) {
        assert rest[j] in multiset(rest);
      }
    }
  }

  /** Python's `sorted(sessions, key=sort_key)`: a stable sort, here by insertion. */
  function SortSessions(sessions: seq<SessionRecord>): (r: seq<SessionRecord>)
    ensures multiset(r) == multiset(sessions)
    ensures |r| == |sessions|
  {
    if sessions == [] then []
    else
      var prefix := sessions[..|sessions| - 1];
      assert sessions == prefix + [sessions[|sessions| - 1]];
      var r := Insert(sessions[|sessions| - 1], SortSessions(prefix));
      assert |r| == |multiset(r)|;
      r
  }

  /** The result is ordered by the sort key. */
  lemma {:induction false} SortSessionsSorted(sessions: seq<SessionRecord>)
    ensures Sorted(SortSessions(sessions))
  {
    if sessions != [] {
      var prefix := sessions[..|sessions| - 1];
      SortSessionsSorted(prefix);
      InsertSorted(sessions[|sessions| - 1], SortSessions(prefix));
    }
  }

  /** The records of `s` whose key equals that of `k`, in their order in `s`. */
  function WithKey(s: seq<SessionRecord>, k: SessionRecord): seq<SessionRecord>
  {
    if s == [] then []
    else (if SameKey(s[0], k) then [s[0]] else []) + WithKey(s[1..], k)
  }

  lemma {:induction false} WithKeyConcat(a: seq<SessionRecord>, b: seq<SessionRecord>, k: SessionRecord)
    ensures WithKey(a + b, k) == WithKey(a, k) + WithKey(b, k)
  {
    if a == [] {
      assert a + b == b;
    } else {
      assert (a + b)[0] == a[0];
      assert (a + b)[1..] == a[1..] + b;
      WithKeyConcat(a[1..], b, k);
    }
  }

  lemma {:induction false} WithKeyNone(s: seq<SessionRecord>, k: SessionRecord)
    requires forall i :: 0 <= i < |s| ==> !SameKey(s[i], k)
    ensures WithKey(s, k) == []
  {
    if s != [] {
      WithKeyNone(s[1..], k);
    }
  }

  /** When `x` goes in front of a sorted list, nothing in the list shares its key. */
  lemma NoSameKeyAfterFront(x: SessionRecord, sorted: seq<SessionRecord>, k: SessionRecord)
    requires Sorted(sorted) && sorted != [] && !KeyLe(sorted[0], x) && SameKey(x, k)
    ensures WithKey(sorted, k) == []
  {
    forall i | 0 <= i < |sorted| ensures !SameKey(sorted[i], k) {
      if SameKey(sorted[i], k) {
        LexLeReflexive(x.originalLabel);
        SameKeyCompares(sorted[i], x, x);
        if i > 0 {
          KeyLeTransitive(sorted[0], sorted[i], x);
        }
      }
    }
    WithKeyNone(sorted, k);
  }

  /** Inserting keeps `x` behind every record with the same key. */
  lemma {:induction false} InsertStable(x: SessionRecord, sorted: seq<SessionRecord>, k: SessionRecord)
    requires Sorted(sorted)
    ensures WithKey(Insert(x, sorted), k) == WithKey(sorted, k) + (if SameKey(x, k) then [x] else [])
  {
    if sorted == [] {
      assert WithKey([x], k) == (if SameKey(x, k) then [x] else []) + WithKey([], k);
    } else if !KeyLe(sorted[0], x) {
      InsertStableFront(x, sorted, k);
    } else {
      InsertStable(x, sorted[1..], k);
      assert Insert(x, sorted) == [sorted[0]] + Insert(x, sorted[1..]);
      assert sorted == [sorted[0]] + sorted[1..];
      WithKeyCons(sorted[0], Insert(x, sorted[1..]), sorted[1..], if SameKey(x, k) then [x] else [], k);
    }
  }

  /** The case where `x` goes in front of the list. */
  lemma InsertStableFront(x: SessionRecord, sorted: seq<SessionRecord>, k: SessionRecord)
    requires Sorted(sorted) && sorted != [] && !KeyLe(sorted[0], x)
    ensures WithKey(Insert(x, sorted), k) == WithKey(sorted, k) + (if SameKey(x, k) then [x] else [])
  {
    assert Insert(x, sorted) == [x] + sorted;
    WithKeyConcat([x], sorted, k);
    assert WithKey([x], k) == (if SameKey(x, k) then [x] else []) + WithKey([], k);
    if SameKey(x, k) {
      NoSameKeyAfterFront(x, sorted, k);
    }
  }

  /** Putting the same record in front of two lists whose same-key records differ by a
      trailing `tail` keeps that difference. */
  lemma WithKeyCons(first: SessionRecord, rest: seq<SessionRecord>, s: seq<SessionRecord>, tail: seq<SessionRecord>, k: SessionRecord)
    requires WithKey(rest, k) == WithKey(s, k) + tail
    ensures WithKey([first] + rest, k) == WithKey([first] + s, k) + tail
  {
    WithKeyConcat([first], rest, k);
    WithKeyConcat([first], s, k);
  }

  /** The sort is stable: the records sharing a key keep their input order. */
  lemma {:induction false} SortSessionsStable(sessions: seq<SessionRecord>, k: SessionRecord)
    ensures WithKey(SortSessions(sessions), k) == WithKey(sessions, k)
  {
    if sessions != [] {
      var prefix := sessions[..|sessions| - 1];
      var last := sessions[|sessions| - 1];
      assert sessions == prefix + [last];
      SortSessionsStable(prefix, k);
      SortSessionsSorted(prefix);
      InsertStable(last, SortSessions(prefix), k);
      WithKeyConcat(prefix, [last], k);
    }
  }

  /** A record compares at most equal to itself. */
  lemma KeyLeReflexive(a: SessionRecord)
    ensures KeyLe(a, a)
  {
    LexLeReflexive(a.originalLabel);
  }

  /** The first record of a sorted list is at most every record of the list. */
  lemma SortedHeadLeast(s: seq<SessionRecord>, x: SessionRecord)
    requires Sorted(s) && x in s
    ensures KeyLe(s[0], x)
  {
    var p :| 0 <= p < |s| && s[p] == x;
    if p == 0 {
      KeyLeReflexive(x);
    }
  }

  /** Sortedness, the multiset and the order among equal keys determine a list: any two
      stable sorts of the same input agree. */
  lemma {:induction false} StableSortUnique(a: seq<SessionRecord>, b: seq<SessionRecord>)
    requires Sorted(a) && Sorted(b)
    requires multiset(a) == multiset(b)
    requires forall k :: WithKey(a, k) == WithKey(b, k)
    ensures a == b
    decreases |a|
  {
    if a == [] {
      assert |b| == |multiset(b)| == 0;
    } else {
      SameHeads(a, b);
      SameTails(a, b);
      StableSortUnique(a[1..], b[1..]);
      assert a == [a[0]] + a[1..];
      assert b == [b[0]] + b[1..];
    }
  }

  lemma SameHeads(a: seq<SessionRecord>, b: seq<SessionRecord>)
    requires Sorted(a) && Sorted(b) && a != []
    requires multiset(a) == multiset(b)
    requires WithKey(a, a[0]) == WithKey(b, a[0])
    ensures b != [] && a[0] == b[0]
  {
    assert a[0] in multiset(b);
    assert b[0] in multiset(a);
    SortedHeadLeast(a, b[0]);
    SortedHeadLeast(b, a[0]);
    KeyLeAntisymmetric(a[0], b[0]);
    assert WithKey(a, a[0])[0] == a[0];
    assert WithKey(b, a[0])[0] == b[0];
  }

  lemma SameTails(a: seq<SessionRecord>, b: seq<SessionRecord>)
    requires Sorted(a) && Sorted(b) && a != [] && b != [] && a[0] == b[0]
    requires multiset(a) == multiset(b)
    requires forall k :: WithKey(a, k) == WithKey(b, k)
    ensures Sorted(a[1..]) && Sorted(b[1..])
    ensures multiset(a[1..]) == multiset(b[1..])
    ensures forall k :: WithKey(a[1..], k) == WithKey(b[1..], k)
  {
    SortedTail(a);
    SortedTail(b);
    MultisetTail(a, b);
    forall k ensures WithKey(a[1..], k) == WithKey(b[1..], k) {
      WithKeyTail(a, b, k);
    }
  }

  lemma MultisetTail(a: seq<SessionRecord>, b: seq<SessionRecord>)
    requires a != [] && b != [] && a[0] == b[0]
    requires multiset(a) == multiset(b)
    ensures multiset(a[1..]) == multiset(b[1..])
  {
    assert a == [a[0]] + a[1..];
    assert b == [b[0]] + b[1..];
    assert multiset(a) == multiset{a[0]} + multiset(a[1..]);
    assert multiset(b) == multiset{a[0]} + multiset(b[1..]);
    assert multiset(a[1..]) == multiset(a) - multiset{a[0]};
    assert multiset(b[1..]) == multiset(b) - multiset{a[0]};
  }

  lemma SortedTail(s: seq<SessionRecord>)
    requires Sorted(s) && s != []
    ensures Sorted(s[1..])
  {
    forall i, j | 0 <= i < j < |s| - 1 ensures KeyLe(s[1..][i], s[1..][j]) {
      assert s[1..][i] == s[i + 1] && s[1..][j] == s[j + 1];
    }
  }

  lemma WithKeyTail(a: seq<SessionRecord>, b: seq<SessionRecord>, k: SessionRecord)
    requires a != [] && b != [] && a[0] == b[0]
    requires WithKey(a, k) == WithKey(b, k)
    ensures WithKey(a[1..], k) == WithKey(b[1..], k)
  {
    var head := if SameKey(a[0], k) then [a[0]] else [];
    assert WithKey(a, k) == head + WithKey(a[1..], k);
    assert WithKey(b, k) == head + WithKey(b[1..], k);
    assert WithKey(a[1..], k) == WithKey(a, k)[|head|..];
  }

  /** Any sorted, stable permutation of the sessions is the one `SortSessions` computes, so
      the model's insertion sort and Python's `sorted` give the same list. */
  lemma SortSessionsIsTheStableSort(sessions: seq<SessionRecord>, r: seq<SessionRecord>)
    requires Sorted(r) && multiset(r) == multiset(sessions)
    requires forall k :: WithKey(r, k) == WithKey(sessions, k)
    ensures r == SortSessions(sessions)
  {
    SortSessionsSorted(sessions);
    forall k ensures WithKey(SortSessions(sessions), k) == WithKey(sessions, k) {
      SortSessionsStable(sessions, k);
    }
    StableSortUnique(r, SortSessions(sessions));
  }

  /** What the sorted order means for the sessions: timestamped sessions come first in
      ascending timestamp order, untimestamped ones after them, and sessions with equal
      timestamps, or both without one, are ordered by original label. */
  lemma SortSessionsChronological(sessions: seq<SessionRecord>, i: nat, j: nat)
    requires i < j < |SortSessions(sessions)|
    ensures var r := SortSessions(sessions);
      && (r[i].timestamp.None? ==> r[j].timestamp.None?)
      && (r[i].timestamp.Some? && r[j].timestamp.Some? ==> r[i].timestamp.value <= r[j].timestamp.value)
      && (r[i].timestamp == r[j].timestamp ==> LexLe(r[i].originalLabel, r[j].originalLabel))
  {
    var r := SortSessions(sessions);
    SortSessionsSorted(sessions);
    assert KeyLe(r[i], r[j]);
  }

  /** The worked example: sessions visit_A at T1, visit_B at T2 < T1 and visit_C without a
      timestamp come out as visit_B, visit_A, visit_C. */
  lemma SortSessionsExample(t1: int, t2: int, a: bool, b: bool, c: bool)
    requires t2 < t1
    ensures SortSessions([SessionRecord("1", "visit_A", a, Some(t1)),
                          SessionRecord("2", "visit_B", b, Some(t2)),
                          SessionRecord("3", "visit_C", c, None)])
         == [SessionRecord("2", "visit_B", b, Some(t2)),
             SessionRecord("1", "visit_A", a, Some(t1)),
             SessionRecord("3", "visit_C", c, None)]
  {
    var recA := SessionRecord("1", "visit_A", a, Some(t1));
    var recB := SessionRecord("2", "visit_B", b, Some(t2));
    var recC := SessionRecord("3", "visit_C", c, None);
    var input := [recA, recB, recC];
    assert input[..2] == [recA, recB];
    SortTwoOutOfOrder(recA, recB);
    InsertUntimedLast(recC, recB, recA);
  }

  lemma SortTwoOutOfOrder(x: SessionRecord, y: SessionRecord)
    requires x.timestamp.Some? && y.timestamp.Some? && y.timestamp.value < x.timestamp.value
    ensures SortSessions([x, y]) == [y, x]
  {
    assert [x, y][..1] == [x];
    assert [x][..0] == [];
  }

  lemma InsertUntimedLast(z: SessionRecord, x: SessionRecord, y: SessionRecord)
    requires z.timestamp.None? && x.timestamp.Some? && y.timestamp.Some?
    ensures Insert(z, [x, y]) == [x, y, z]
  {
    assert [x, y][1..] == [y];
    assert Insert(z, [y]) == [y, z];
  }
}
