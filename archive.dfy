/** The records the archive client hands to the reconciliation, as plain values.
    Each remote object keeps only the attributes the reconciliation reads. */
module Archive {

  datatype Option<T> = None | Some(value: T)

  /** An analysis record; `files` is `None` when the record has no file listing at all. */
  datatype Analysis = Analysis(files: Option<seq<string>>)

  /** A session: its id, its label (`sessionLabel`), its acquisition timestamp when the record carries one,
      and the analyses attached to it (a missing analysis list is the empty one). */
  datatype Session = Session(id: string, sessionLabel: string, timestamp: Option<int>, analyses: seq<Analysis>)

  /** A subject as listed by the project: its raw code and its sessions. */
  datatype Subject = Subject(code: string, sessions: seq<Session>)
}
