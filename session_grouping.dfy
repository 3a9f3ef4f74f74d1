/** The collection pass of the physio summary: every session of every subject whose
    canonical id is valid is recorded, with its physio flag, under that canonical id. */
module SessionGrouping {
  import opened Archive
  import opened SubjectUtils
  import opened PhysioInline

  /** What is kept of one session: its id, its original label, its physio flag, its timestamp. */
  datatype SessionRecord = SessionRecord(id: string, originalLabel: string, hasPhysio: bool, timestamp: Option<int>)

  function RecordOf(session: Session): SessionRecord
  {
    SessionRecord(session.id, session.sessionLabel, SessionHasPhysio(session.analyses), session.timestamp)
  }

  function RecordsOf(sessions: seq<Session>): seq<SessionRecord>
  {
    if sessions == [] then []
    else RecordsOf(sessions[..|sessions| - 1]) + [RecordOf(sessions[|sessions| - 1])]
  }

  /** The records of all sessions, in input order, of the subjects whose code normalises to `id`. */
  function SessionsOf(subjects: seq<Subject>, id: string): seq<SessionRecord>
  {
    if subjects == [] then []
    else
      var last := subjects[|subjects| - 1];
      SessionsOf(subjects[..|subjects| - 1], id)
        + (if NormalizeSubjectId(last.code) == id then RecordsOf(last.sessions) else [])
  }

  function CanonicalIds(subjects: seq<Subject>): set<string>
  {
    set subject | subject in subjects :: NormalizeSubjectId(subject.code)
  }

  /** The pooled sessions: a valid canonical id with at least one session maps to its sessions. */
  function Pooled(subjects: seq<Subject>, valid: set<string>): map<string, seq<SessionRecord>>
  {
    map id | id in CanonicalIds(subjects) && id in valid && SessionsOf(subjects, id) != [] :: SessionsOf(subjects, id)
  }

  lemma {:induction false} RecordsOfMembers(sessions: seq<Session>, r: SessionRecord)
    ensures r in RecordsOf(sessions) <==> exists k :: k in sessions && r == RecordOf(k)
  {
    if sessions != [] {
      var prefix := sessions[..|sessions| - 1];
      RecordsOfMembers(prefix, r);
      assert sessions == prefix + [sessions[|sessions| - 1]];
      if exists k :: k in sessions && r == RecordOf(k) {
        var k :| k in sessions && r == RecordOf(k);
        if k != sessions[|sessions| - 1] {
          assert k in prefix;
        }
      }
    }
  }

  /** A record is pooled under `id` exactly when it is the record of some session of some
      subject whose code normalises to `id`. */
  lemma {:induction false} SessionsOfMembers(subjects: seq<Subject>, id: string, r: SessionRecord)
    ensures r in SessionsOf(subjects, id) <==>
      exists subject, k :: subject in subjects && k in subject.sessions
        && NormalizeSubjectId(subject.code) == id && r == RecordOf(k)
  {
    if subjects != [] {
      var prefix := subjects[..|subjects| - 1];
      var last := subjects[|subjects| - 1];
      assert subjects == prefix + [last];
      SessionsOfMembers(prefix, id, r);
      RecordsOfMembers(last.sessions, r);
      if exists subject, k :: (subject in subjects && k in subject.sessions
        && NormalizeSubjectId(subject.code) == id && r == RecordOf(k))
      {
        var subject, k :| subject in subjects && k in subject.sessions
          && NormalizeSubjectId(subject.code) == id && r == RecordOf(k);
        if subject != last {
          assert subject in prefix;
        }
      }
    }
  }

  lemma {:induction false} SessionsOfCanonical(subjects: seq<Subject>, id: string)
    requires SessionsOf(subjects, id) != []
    ensures id in CanonicalIds(subjects)
  {
    SessionsOfMembers(subjects, id, SessionsOf(subjects, id)[0]);
  }

  /** The keys of the pooled map are the valid canonical ids that have sessions, and each
      maps to all sessions of the subjects that normalise to it. */
  lemma PooledCharacterization(subjects: seq<Subject>, valid: set<string>, id: string)
    ensures id in Pooled(subjects, valid) <==> id in valid && SessionsOf(subjects, id) != []
    ensures id in Pooled(subjects, valid) ==> Pooled(subjects, valid)[id] == SessionsOf(subjects, id)
  {
    if SessionsOf(subjects, id) != [] {
      SessionsOfCanonical(subjects, id);
    }
  }

  /** Subjects whose codes normalise to the same valid id have all their sessions pooled
      under that one id (for instance s29 and s29-2). */
  lemma AliasedSubjectsPooled(subjects: seq<Subject>, valid: set<string>, s1: Subject, s2: Subject, k1: Session, k2: Session)
    requires s1 in subjects && s2 in subjects && k1 in s1.sessions && k2 in s2.sessions
    requires NormalizeSubjectId(s1.code) == NormalizeSubjectId(s2.code) && NormalizeSubjectId(s1.code) in valid
    ensures NormalizeSubjectId(s1.code) in Pooled(subjects, valid)
    ensures RecordOf(k1) in Pooled(subjects, valid)[NormalizeSubjectId(s1.code)]
    ensures RecordOf(k2) in Pooled(subjects, valid)[NormalizeSubjectId(s1.code)]
  {
    var id := NormalizeSubjectId(s1.code);
    SessionsOfMembers(subjects, id, RecordOf(k1));
    SessionsOfMembers(subjects, id, RecordOf(k2));
    PooledCharacterization(subjects, valid, id);
  }

  /** A subject whose canonical id is not valid has nothing pooled under that id. */
  lemma InvalidSubjectSkipped(subjects: seq<Subject>, valid: set<string>, subject: Subject)
    requires subject in subjects && NormalizeSubjectId(subject.code) !in valid
    ensures NormalizeSubjectId(subject.code) !in Pooled(subjects, valid)
  {
  }

  lemma AppendSession(prefix: seq<Subject>, code: string, sessions: seq<Session>, k: Session, id: string)
    ensures SessionsOf(prefix + [Subject(code, sessions + [k])], id)
      == SessionsOf(prefix + [Subject(code, sessions)], id)
        + (if NormalizeSubjectId(code) == id then [RecordOf(k)] else [])
  {
    assert (prefix + [Subject(code, sessions + [k])])[..|prefix|] == prefix;
    assert (prefix + [Subject(code, sessions)])[..|prefix|] == prefix;
    assert (sessions + [k])[..|sessions|] == sessions;
  }

  lemma AppendSubject(prefix: seq<Subject>, subject: Subject, id: string)
    ensures SessionsOf(prefix + [subject], id)
      == SessionsOf(prefix, id) + (if NormalizeSubjectId(subject.code) == id then RecordsOf(subject.sessions) else [])
  {
    assert (prefix + [subject])[..|prefix|] == prefix;
  }

  /** `pooled` holds exactly what the collection pass has gathered from `subjects`. */
  ghost predicate Collected(pooled: map<string, seq<SessionRecord>>, subjects: seq<Subject>, valid: set<string>)
  {
    forall x :: (x in pooled <==> x in valid && SessionsOf(subjects, x) != [])
      && (x in pooled ==> pooled[x] == SessionsOf(subjects, x))
  }

  /** Walks the subjects, skips those whose canonical id is not valid, and appends the record
      of each session of the others to the list kept for the canonical id. */
  method CollectSessions(subjects: seq<Subject>, valid: set<string>) returns (pooled: map<string, seq<SessionRecord>>)
    ensures pooled == Pooled(subjects, valid)
  {
    pooled := map[];
    var i := 0;
    while i < |subjects|
      invariant 0 <= i <= |subjects|
      invariant Collected(pooled, subjects[..i], valid)
    {
      var subject := subjects[i];
      var normalizedId := NormalizeSubjectId(subject.code);
      assert subjects[..i + 1] == subjects[..i] + [subject];
      if normalizedId in valid {
        pooled := CollectSubjectSessions(pooled, subjects[..i], subject, valid);
      } else {
        forall x
          ensures (x in pooled <==> x in valid && SessionsOf(subjects[..i + 1], x) != [])
            && (x in pooled ==> pooled[x] == SessionsOf(subjects[..i + 1], x))
        {
          AppendSubject(subjects[..i], subject, x);
        }
      }
      i := i + 1;
    }
    assert subjects[..i] == subjects;
    forall x {
      PooledCharacterization(subjects, valid, x);
    }
  }

  /** The inner loop of the collection pass: one record per session of a valid subject,
      with its physio flag, appended under the subject's canonical id. */
  method CollectSubjectSessions(pooled0: map<string, seq<SessionRecord>>, ghost prefix: seq<Subject>, subject: Subject, valid: set<string>)
    returns (pooled: map<string, seq<SessionRecord>>)
    requires Collected(pooled0, prefix, valid)
    requires NormalizeSubjectId(subject.code) in valid
    ensures Collected(pooled, prefix + [subject], valid)
  {
    var normalizedId := NormalizeSubjectId(subject.code);
    var sessions := subject.sessions;
    pooled := pooled0;
    assert sessions[..0] == [];
    CollectedEmptySubject(pooled, prefix, subject.code, valid);
    var j := 0;
    while j < |sessions|
      invariant 0 <= j <= |sessions|
      invariant Collected(pooled, prefix + [Subject(subject.code, sessions[..j])], valid)
    {
      var session := sessions[j];
      var hasPhysio := CheckSessionPhysio(session.analyses);
      var record := SessionRecord(session.id, session.sessionLabel, hasPhysio, session.timestamp);
      assert record == RecordOf(session);
      CollectedAppendSession(pooled, prefix, subject.code, sessions, j, valid);
      pooled := pooled[normalizedId := (if normalizedId in pooled then pooled[normalizedId] else []) + [record]];
      j := j + 1;
    }
    assert sessions[..j] == subject.sessions;
    assert Subject(subject.code, sessions[..j]) == subject;
  }

  lemma CollectedEmptySubject(pooled: map<string, seq<SessionRecord>>, prefix: seq<Subject>, code: string, valid: set<string>)
    requires Collected(pooled, prefix, valid)
    ensures Collected(pooled, prefix + [Subject(code, [])], valid)
  {
    forall x
      ensures SessionsOf(prefix + [Subject(code, [])], x) == SessionsOf(prefix, x)
    {
      AppendSubject(prefix, Subject(code, []), x);
    }
  }

  /** Recording one more session of a valid subject keeps `Collected`. */
  lemma CollectedAppendSession(pooled: map<string, seq<SessionRecord>>, prefix: seq<Subject>, code: string,
                               sessions: seq<Session>, j: nat, valid: set<string>)
    requires j < |sessions|
    requires Collected(pooled, prefix + [Subject(code, sessions[..j])], valid)
    requires NormalizeSubjectId(code) in valid
    ensures var id := NormalizeSubjectId(code);
      Collected(pooled[id := (if id in pooled then pooled[id] else []) + [RecordOf(sessions[j])]],
                prefix + [Subject(code, sessions[..j + 1])], valid)
  {
    var k := sessions[j];
    assert sessions[..j + 1] == sessions[..j] + [k];
    var id := NormalizeSubjectId(code);
    var before := prefix + [Subject(code, sessions[..j])];
    var after := prefix + [Subject(code, sessions[..j] + [k])];
    var updated := pooled[id := (if id in pooled then pooled[id] else []) + [RecordOf(k)]];
    forall x
      ensures (x in updated <==> x in valid && SessionsOf(after, x) != [])
        && (x in updated ==> updated[x] == SessionsOf(after, x))
    {
      AppendSession(prefix, code, sessions[..j], k, x);
      if x == id {
        assert x in pooled <==> SessionsOf(before, x) != [];
      }
    }
  }
}
