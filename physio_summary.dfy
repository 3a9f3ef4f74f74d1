/** The physio summary: subjects in ascending id order, each subject's sessions in
    chronological order relabelled ses-01, ses-02, ..., each row with its physio flag. */
module PhysioSummary {
  import opened Strings
  import opened Archive
  import opened SubjectUtils
  import opened PhysioInline
  import opened SessionGrouping
  import opened SessionOrder
  import opened SessionLabels

  /** One output row: canonical subject id, new session label, physio flag, original label. */
  datatype SummaryRow = SummaryRow(subjectId: string, session: string, hasPhysio: bool, originalSessionLabel: string)

  ghost predicate StrictlyAscending(ids: seq<string>)
  {
    forall i, j :: 0 <= i < j < |ids| ==> LexLt(ids[i], ids[j])
  }

  predicate IsLeast(m: string, ids: set<string>)
  {
    m in ids && forall x :: x in ids ==> LexLe(m, x)
  }

  lemma LeastExists(ids: set<string>)
    requires ids != {}
    ensures exists m :: IsLeast(m, ids)
  {
    var x :| x in ids;
    LexLeReflexive(x);
    if ids != {x} {
      LeastExists(ids - {x});
      var m :| IsLeast(m, ids - {x});
      LexLeTotal(m, x);
      if !LexLe(m, x) {
        forall y | y in ids ensures LexLe(x, y) {
          if y != x {
            LexLeTransitive(x, m, y);
          }
        }
        assert IsLeast(x, ids);
      } else {
        assert IsLeast(m, ids);
      }
    } else {
      assert IsLeast(x, ids);
    }
  }

  /** `sorted(ids)` for a set of subject ids: every id once, in ascending order. */
  ghost function SortedIds(ids: set<string>): (r: seq<string>)
    ensures StrictlyAscending(r)
    ensures forall x :: x in r <==> x in ids
  {
    if ids == {} then []
    else
      LeastExists(ids);
      var m :| IsLeast(m, ids);
      var rest := SortedIds(ids - {m});
      forall j | 0 <= j < |rest| ensures LexLt(m, rest[j]) {
        assert rest[j] in ids - {m};
      }
      [m] + rest
  }

  /** Two ascending enumerations of the same ids are the same sequence. */
  lemma {:induction false} AscendingUnique(a: seq<string>, b: seq<string>)
    requires StrictlyAscending(a) && StrictlyAscending(b)
    requires forall x :: x in a <==> x in b
    ensures a == b
    decreases |a| + |b|, if a == [] then 1 else 0
  {
    if a != [] {
      assert a[0] in b;
      assert b != [];
      assert b[0] in a;
      var i :| 0 <= i < |a| && a[i] == b[0];
      var j :| 0 <= j < |b| && b[j] == a[0];
      if i != 0 && j != 0 {
        LexLeAntisymmetric(a[0], b[0]);
      }
      assert a[0] == b[0];
      forall x ensures x in a[1..] <==> x in b[1..] {
        if x in a[1..] {
          var p :| 0 <= p < |a[1..]| && a[1..][p] == x;
          assert LexLt(a[0], a[p + 1]);
          assert a[p + 1] in a;
          var q :| 0 <= q < |b| && b[q] == x;
          assert q != 0;
          assert b[1..][q - 1] == x;
        }
        if x in b[1..] {
          var q :| 0 <= q < |b[1..]| && b[1..][q] == x;
          assert LexLt(b[0], b[q + 1]);
          assert b[q + 1] in b;
          var p :| 0 <= p < |a| && a[p] == x;
          assert p != 0;
          assert a[1..][p - 1] == x;
        }
      }
      AscendingUnique(a[1..], b[1..]);
      assert a == [a[0]] + a[1..];
      assert b == [b[0]] + b[1..];
    } else if b != [] {
      AscendingUnique(b, a);
    }
  }

  /** The rows of one subject: the session of rank n in chronological order is labelled ses-n. */
  function SubjectRows(subjectId: string, sorted: seq<SessionRecord>): (rows: seq<SummaryRow>)
    ensures |rows| == |sorted|
    ensures forall k :: 0 <= k < |rows| ==> rows[k].subjectId == subjectId
  {
    seq(|sorted|, k requires 0 <= k < |sorted| =>
      SummaryRow(subjectId, SessionLabel(k + 1), sorted[k].hasPhysio, sorted[k].originalLabel))
  }

  /** Each pooled subject's sessions in chronological order. */
  function SortedPool(pooled: map<string, seq<SessionRecord>>): (chrono: map<string, seq<SessionRecord>>)
    ensures chrono.Keys == pooled.Keys
    ensures forall x :: x in pooled ==> multiset(chrono[x]) == multiset(pooled[x])
  {
    map x | x in pooled :: SortSessions(pooled[x])
  }

  /** The rows of the given subjects, one block per subject in the given order, each block
      listing the subject's already ordered sessions. */
  function Rows(ids: seq<string>, chrono: map<string, seq<SessionRecord>>): seq<SummaryRow>
    requires forall x :: x in ids ==> x in chrono
  {
    if ids == [] then []
    else
      var last := ids[|ids| - 1];
      Rows(ids[..|ids| - 1], chrono) + SubjectRows(last, chrono[last])
  }

  /** The summary of the pooled sessions, subjects in ascending id order. */
  ghost function Summary(pooled: map<string, seq<SessionRecord>>): seq<SummaryRow>
  {
    Rows(SortedIds(pooled.Keys), SortedPool(pooled))
  }

  /** Emits, for each subject id in ascending order, its sessions in chronological order
      under the labels ses-01, ses-02, ... */
  method BuildSummary(pooled: map<string, seq<SessionRecord>>) returns (rows: seq<SummaryRow>)
    ensures rows == Summary(pooled)
  {
    rows := [];
    var remaining := pooled.Keys;
    ghost var chrono := SortedPool(pooled);
    ghost var done: seq<string> := [];
    while remaining != {}
      invariant remaining <= pooled.Keys
      invariant forall x :: x in done ==> x in pooled && x !in remaining
      invariant forall x :: x in pooled ==> x in done || x in remaining
      invariant StrictlyAscending(done)
      invariant forall x, y :: x in done && y in remaining ==> LexLt(x, y)
      invariant rows == Rows(done, chrono)
      decreases remaining
    {
      LeastExists(remaining);
      var subjectId :| IsLeast(subjectId, remaining);
      var sessions := SortSessions(pooled[subjectId]);
      assert sessions == chrono[subjectId];
      rows := AppendSubjectRows(rows, subjectId, sessions);
      RowsAppend(done, subjectId, chrono);
      AscendingAppend(done, subjectId, remaining);
      done := done + [subjectId];
      remaining := remaining - {subjectId};
    }
    AscendingUnique(done, SortedIds(pooled.Keys));
  }

  lemma RowsAppend(done: seq<string>, subjectId: string, chrono: map<string, seq<SessionRecord>>)
    requires forall x :: x in done ==> x in chrono
    requires subjectId in chrono
    ensures forall x :: x in done + [subjectId] ==> x in chrono
    ensures Rows(done + [subjectId], chrono) == Rows(done, chrono) + SubjectRows(subjectId, chrono[subjectId])
  {
    assert (done + [subjectId])[..|done|] == done;
  }

  /** Appending the least remaining id keeps the output order strictly ascending. */
  lemma AscendingAppend(done: seq<string>, subjectId: string, remaining: set<string>)
    requires StrictlyAscending(done)
    requires forall x, y :: x in done && y in remaining ==> LexLt(x, y)
    requires IsLeast(subjectId, remaining)
    ensures StrictlyAscending(done + [subjectId])
    ensures forall x, y :: x in done + [subjectId] && y in remaining - {subjectId} ==> LexLt(x, y)
  {
    var next := done + [subjectId];
    forall i, j | 0 <= i < j < |next| ensures LexLt(next[i], next[j]) {
      if j == |done| {
        assert next[i] in done;
      } else {
        assert next[i] == done[i] && next[j] == done[j];
      }
    }
    forall x, y | x in next && y in remaining - {subjectId} ensures LexLt(x, y) {
      if x == subjectId {
        assert LexLe(subjectId, y);
      } else {
        assert x in done;
      }
    }
  }

  /** The relabelling loop of one subject: appends one row per session, ranks from 1. */
  method AppendSubjectRows(rows0: seq<SummaryRow>, subjectId: string, sessions: seq<SessionRecord>)
    returns (rows: seq<SummaryRow>)
    ensures rows == rows0 + SubjectRows(subjectId, sessions)
  {
    rows := rows0;
    var idx := 0;
    while idx < |sessions|
      invariant 0 <= idx <= |sessions|
      invariant rows == rows0 + SubjectRows(subjectId, sessions)[..idx]
    {
      rows := rows + [SummaryRow(subjectId, SessionLabel(idx + 1), sessions[idx].hasPhysio, sessions[idx].originalLabel)];
      idx := idx + 1;
      assert SubjectRows(subjectId, sessions)[..idx]
        == SubjectRows(subjectId, sessions)[..idx - 1] + [SubjectRows(subjectId, sessions)[idx - 1]];
    }
    assert SubjectRows(subjectId, sessions)[..idx] == SubjectRows(subjectId, sessions);
  }

  /** The whole reconciliation: collect and pool the sessions, then order and relabel them. */
  method ProcessPhysioData(subjects: seq<Subject>, valid: set<string>) returns (rows: seq<SummaryRow>)
    ensures rows == Summary(Pooled(subjects, valid))
  {
    var pooled := CollectSessions(subjects, valid);
    rows := BuildSummary(pooled);
  }

  // Properties of the summary.

  /** The rows of `rows` that belong to `subjectId`, in order. */
  function RowsFor(rows: seq<SummaryRow>, subjectId: string): seq<SummaryRow>
  {
    if rows == [] then []
    else
      RowsFor(rows[..|rows| - 1], subjectId)
        + (if rows[|rows| - 1].subjectId == subjectId then [rows[|rows| - 1]] else [])
  }

  lemma {:induction false} RowsForConcat(a: seq<SummaryRow>, b: seq<SummaryRow>, subjectId: string)
    ensures RowsFor(a + b, subjectId) == RowsFor(a, subjectId) + RowsFor(b, subjectId)
  {
    if b == [] {
      assert a + b == a;
    } else {
      assert (a + b)[..|a + b| - 1] == a + b[..|b| - 1];
      RowsForConcat(a, b[..|b| - 1], subjectId);
    }
  }

  lemma {:induction false} RowsForBlock(rows: seq<SummaryRow>, owner: string, subjectId: string)
    requires forall i :: 0 <= i < |rows| ==> rows[i].subjectId == owner
    ensures RowsFor(rows, subjectId) == if owner == subjectId then rows else []
  {
    if rows != [] {
      RowsForBlock(rows[..|rows| - 1], owner, subjectId);
    }
  }

  lemma RowsForSubjectRows(owner: string, sorted: seq<SessionRecord>, subjectId: string)
    ensures RowsFor(SubjectRows(owner, sorted), subjectId)
      == if owner == subjectId then SubjectRows(owner, sorted) else []
  {
    RowsForBlock(SubjectRows(owner, sorted), owner, subjectId);
  }

  /** Each subject's rows form one block: the subject's sessions in chronological order. */
  lemma RowsOfSubject(ids: seq<string>, chrono: map<string, seq<SessionRecord>>, subjectId: string)
    requires forall x :: x in ids ==> x in chrono
    requires Distinct(ids)
    ensures RowsFor(Rows(ids, chrono), subjectId)
      == if subjectId in ids then SubjectRows(subjectId, chrono[subjectId]) else []
  {
    if subjectId in ids {
      RowsOfPresentSubject(ids, chrono, subjectId);
    } else {
      RowsOfAbsentSubject(ids, chrono, subjectId);
    }
  }

  lemma {:induction false} RowsOfAbsentSubject(ids: seq<string>, chrono: map<string, seq<SessionRecord>>, subjectId: string)
    requires forall x :: x in ids ==> x in chrono
    requires subjectId !in ids
    ensures RowsFor(Rows(ids, chrono), subjectId) == []
  {
    if ids != [] {
      var prefix := ids[..|ids| - 1];
      var last := ids[|ids| - 1];
      RowsUnfold(ids, chrono);
      assert subjectId !in prefix && subjectId != last by {
        assert ids == prefix + [last];
      }
      RowsOfAbsentSubject(prefix, chrono, subjectId);
      RowsForStep(Rows(prefix, chrono), last, chrono[last], subjectId, []);
    }
  }

  lemma {:induction false} RowsOfPresentSubject(ids: seq<string>, chrono: map<string, seq<SessionRecord>>, subjectId: string)
    requires forall x :: x in ids ==> x in chrono
    requires Distinct(ids)
    requires subjectId in ids
    ensures RowsFor(Rows(ids, chrono), subjectId) == SubjectRows(subjectId, chrono[subjectId])
  {
    var prefix := ids[..|ids| - 1];
    var last := ids[|ids| - 1];
    RowsUnfold(ids, chrono);
    DistinctDropLast(ids);
    if subjectId == last {
      RowsOfAbsentSubject(prefix, chrono, subjectId);
      RowsForStep(Rows(prefix, chrono), last, chrono[last], subjectId, []);
    } else {
      assert subjectId in prefix by {
        assert ids == prefix + [last];
      }
      RowsOfPresentSubject(prefix, chrono, subjectId);
      RowsForStep(Rows(prefix, chrono), last, chrono[last], subjectId,
                  SubjectRows(subjectId, chrono[subjectId]));
    }
  }

  lemma RowsUnfold(ids: seq<string>, chrono: map<string, seq<SessionRecord>>)
    requires forall x :: x in ids ==> x in chrono
    requires ids != []
    ensures forall x :: x in ids[..|ids| - 1] ==> x in chrono
    ensures Rows(ids, chrono)
      == Rows(ids[..|ids| - 1], chrono) + SubjectRows(ids[|ids| - 1], chrono[ids[|ids| - 1]])
  {
  }

  /** Appending one subject's block adds that block to its own subject's rows only. */
  lemma RowsForStep(before: seq<SummaryRow>, owner: string, sorted: seq<SessionRecord>, subjectId: string, mine: seq<SummaryRow>)
    requires RowsFor(before, subjectId) == mine
    ensures RowsFor(before + SubjectRows(owner, sorted), subjectId)
      == mine + if owner == subjectId then SubjectRows(owner, sorted) else []
  {
    RowsForConcat(before, SubjectRows(owner, sorted), subjectId);
    RowsForSubjectRows(owner, sorted, subjectId);
  }

  ghost predicate Distinct(ids: seq<string>)
  {
    forall i, j :: 0 <= i < j < |ids| ==> ids[i] != ids[j]
  }

  lemma AscendingDistinct(ids: seq<string>)
    requires StrictlyAscending(ids)
    ensures Distinct(ids)
  {
    forall i, j | 0 <= i < j < |ids| ensures ids[i] != ids[j] {
      assert LexLt(ids[i], ids[j]);
    }
  }

  /** Dropping the last id keeps the ids distinct, and the last id does not occur earlier. */
  lemma DistinctDropLast(ids: seq<string>)
    requires Distinct(ids) && ids != []
    ensures Distinct(ids[..|ids| - 1])
    ensures ids[|ids| - 1] !in ids[..|ids| - 1]
  {
    var prefix := ids[..|ids| - 1];
    forall p | 0 <= p < |prefix| ensures prefix[p] != ids[|ids| - 1] {
      assert prefix[p] == ids[p];
    }
  }

  lemma {:induction false} RowsSubjectIn(ids: seq<string>, chrono: map<string, seq<SessionRecord>>, i: nat)
    requires forall x :: x in ids ==> x in chrono
    requires i < |Rows(ids, chrono)|
    ensures Rows(ids, chrono)[i].subjectId in ids
  {
    var prefix := ids[..|ids| - 1];
    if i >= |Rows(prefix, chrono)| {
      assert Rows(ids, chrono)[i].subjectId == ids[|ids| - 1];
    } else {
      RowsSubjectIn(prefix, chrono, i);
      assert Rows(ids, chrono)[i] == Rows(prefix, chrono)[i];
    }
  }

  /** Rows come grouped by subject in ascending subject-id order. */
  lemma {:induction false} RowsAscendingBySubject(ids: seq<string>, chrono: map<string, seq<SessionRecord>>, i: nat, j: nat)
    requires forall x :: x in ids ==> x in chrono
    requires StrictlyAscending(ids)
    requires i < j < |Rows(ids, chrono)|
    ensures LexLe(Rows(ids, chrono)[i].subjectId, Rows(ids, chrono)[j].subjectId)
  {
    var prefix := ids[..|ids| - 1];
    var last := ids[|ids| - 1];
    var rows := Rows(ids, chrono);
    var n := |Rows(prefix, chrono)|;
    if j < n {
      RowsAscendingBySubject(prefix, chrono, i, j);
      assert rows[i] == Rows(prefix, chrono)[i] && rows[j] == Rows(prefix, chrono)[j];
    } else if i < n {
      RowsSubjectIn(prefix, chrono, i);
      assert rows[i] == Rows(prefix, chrono)[i];
      var p :| 0 <= p < |prefix| && prefix[p] == rows[i].subjectId;
      assert LexLt(ids[p], ids[|ids| - 1]);
    } else {
      LexLeReflexive(last);
    }
  }

  /** Within a subject, ranks run 1..N: the k-th row is labelled ses-(k+1), no two labels
      coincide, and each row keeps its own session's physio flag and original label. */
  lemma SubjectRowsLabels(subjectId: string, sorted: seq<SessionRecord>)
    ensures |SubjectRows(subjectId, sorted)| == |sorted|
    ensures forall k :: 0 <= k < |sorted| ==>
      && SubjectRows(subjectId, sorted)[k].session == SessionLabel(k + 1)
      && SubjectRows(subjectId, sorted)[k].hasPhysio == sorted[k].hasPhysio
      && SubjectRows(subjectId, sorted)[k].originalSessionLabel == sorted[k].originalLabel
    ensures forall k1, k2 :: 0 <= k1 < k2 < |sorted| ==>
      SubjectRows(subjectId, sorted)[k1].session != SubjectRows(subjectId, sorted)[k2].session
  {
    SubjectRowsDistinctLabels(subjectId, sorted);
  }

  lemma SubjectRowsDistinctLabels(subjectId: string, sorted: seq<SessionRecord>)
    ensures forall k1, k2 :: 0 <= k1 < k2 < |sorted| ==>
      SubjectRows(subjectId, sorted)[k1].session != SubjectRows(subjectId, sorted)[k2].session
  {
    forall k1, k2 | 0 <= k1 < k2 < |sorted|
      ensures SubjectRows(subjectId, sorted)[k1].session != SubjectRows(subjectId, sorted)[k2].session
    {
      SubjectRowsDistinctPair(subjectId, sorted, k1, k2);
    }
  }

  lemma SubjectRowsDistinctPair(subjectId: string, sorted: seq<SessionRecord>, k1: nat, k2: nat)
    requires k1 < k2 < |sorted|
    ensures SubjectRows(subjectId, sorted)[k1].session != SubjectRows(subjectId, sorted)[k2].session
  {
    SubjectRowsSessionAt(subjectId, sorted, k1);
    SubjectRowsSessionAt(subjectId, sorted, k2);
    SessionLabelInjective(k1 + 1, k2 + 1);
  }

  lemma SubjectRowsSessionAt(subjectId: string, sorted: seq<SessionRecord>, k: nat)
    requires k < |sorted|
    ensures SubjectRows(subjectId, sorted)[k].session == SessionLabel(k + 1)
  {
  }

  /** End to end: the rows of a canonical id are all sessions of the subjects that normalise
      to it, when it is valid, in chronological order and relabelled; an id that is not valid
      has no rows. */
  lemma SummaryOfSubject(subjects: seq<Subject>, valid: set<string>, subjectId: string)
    ensures RowsFor(Summary(Pooled(subjects, valid)), subjectId)
      == if subjectId in valid then SubjectRows(subjectId, SortSessions(SessionsOf(subjects, subjectId))) else []
  {
    var pooled := Pooled(subjects, valid);
    var chrono := SortedPool(pooled);
    var ids := SortedIds(pooled.Keys);
    AscendingDistinct(ids);
    RowsOfSubject(ids, chrono, subjectId);
    PooledCharacterization(subjects, valid, subjectId);
    assert subjectId in ids <==> subjectId in pooled;
    if subjectId in valid && subjectId !in pooled {
      assert SessionsOf(subjects, subjectId) == [];
      NoSessionsNoRows(subjectId);
    }
  }

  /** The output rows come grouped by subject in ascending subject-id order. */
  lemma SummaryAscendingBySubject(subjects: seq<Subject>, valid: set<string>, i: nat, j: nat)
    requires i < j < |Summary(Pooled(subjects, valid))|
    ensures var rows := Summary(Pooled(subjects, valid));
      LexLe(rows[i].subjectId, rows[j].subjectId)
  {
    var pooled := Pooled(subjects, valid);
    RowsAscendingBySubject(SortedIds(pooled.Keys), SortedPool(pooled), i, j);
  }

  lemma NoSessionsNoRows(subjectId: string)
    ensures SubjectRows(subjectId, SortSessions([])) == []
  {
    assert |SortSessions([])| == 0;
  }

  /** Every output row comes from a session of a valid subject and carries that session's
      original label and physio flag. */
  lemma SummaryRowOrigin(subjects: seq<Subject>, valid: set<string>, row: SummaryRow)
    requires row in Summary(Pooled(subjects, valid))
    ensures row.subjectId in valid
    ensures exists subject, k :: (subject in subjects && k in subject.sessions
      && NormalizeSubjectId(subject.code) == row.subjectId
      && k.sessionLabel == row.originalSessionLabel
      && SessionHasPhysio(k.analyses) == row.hasPhysio)
  {
    var pooled := Pooled(subjects, valid);
    var chrono := SortedPool(pooled);
    var ids := SortedIds(pooled.Keys);
    var i :| 0 <= i < |Rows(ids, chrono)| && Rows(ids, chrono)[i] == row;
    RowsSubjectIn(ids, chrono, i);
    PooledCharacterization(subjects, valid, row.subjectId);
    AscendingDistinct(ids);
    RowsOfSubject(ids, chrono, row.subjectId);
    var sorted := chrono[row.subjectId];
    var block := SubjectRows(row.subjectId, sorted);
    RowInRowsFor(Rows(ids, chrono), i);
    var k :| 0 <= k < |block| && block[k] == row;
    assert sorted[k] in multiset(pooled[row.subjectId]);
    SessionsOfMembers(subjects, row.subjectId, sorted[k]);
  }

  lemma {:induction false} RowInRowsFor(rows: seq<SummaryRow>, i: nat)
    requires i < |rows|
    ensures rows[i] in RowsFor(rows, rows[i].subjectId)
  {
    if i < |rows| - 1 {
      RowInRowsFor(rows[..|rows| - 1], i);
    }
  }

  /** Every session of a valid subject appears in the output under the canonical id, with
      its original label and physio flag. */
  lemma SummaryCoversSession(subjects: seq<Subject>, valid: set<string>, subject: Subject, k: Session)
    requires subject in subjects && k in subject.sessions
    requires NormalizeSubjectId(subject.code) in valid
    ensures exists row :: (row in Summary(Pooled(subjects, valid))
      && row.subjectId == NormalizeSubjectId(subject.code)
      && row.originalSessionLabel == k.sessionLabel
      && row.hasPhysio == SessionHasPhysio(k.analyses))
  {
    var id := NormalizeSubjectId(subject.code);
    var summary := Summary(Pooled(subjects, valid));
    SessionsOfMembers(subjects, id, RecordOf(k));
    var sorted := SortSessions(SessionsOf(subjects, id));
    assert RecordOf(k) in multiset(sorted);
    var p :| 0 <= p < |sorted| && sorted[p] == RecordOf(k);
    SummaryOfSubject(subjects, valid, id);
    var row := SubjectRows(id, sorted)[p];
    assert row in RowsFor(summary, id);
    RowsForMembers(summary, id, row);
  }

  lemma {:induction false} RowsForMembers(rows: seq<SummaryRow>, subjectId: string, row: SummaryRow)
    requires row in RowsFor(rows, subjectId)
    ensures row in rows && row.subjectId == subjectId
  {
    if rows != [] {
      var prefix := rows[..|rows| - 1];
      if row in RowsFor(prefix, subjectId) {
        RowsForMembers(prefix, subjectId, row);
      }
    }
  }

  /** With no valid subject the summary is empty. */
  lemma NoValidSubjectsNoRows(subjects: seq<Subject>)
    ensures Summary(Pooled(subjects, {})) == []
  {
    assert Pooled(subjects, {}).Keys == {};
  }
}
