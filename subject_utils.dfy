/** Subject identity normalisation through the alias table. */
module SubjectUtils {
  import opened Config

  /** The canonical id of a raw subject code: its alias target, or the code itself. */
  function NormalizeSubjectId(subjectId: string): (canonical: string)
    ensures canonical == subjectId || canonical in SubjectAliases.Values
    ensures canonical !in SubjectAliases
  {
    NoAliasChains();
    if subjectId in SubjectAliases then SubjectAliases[subjectId] else subjectId
  }

  /** An alias maps to its configured canonical id, e.g. s29-2 to s29. */
  lemma NormalizeAlias(subjectId: string)
    requires subjectId in SubjectAliases
    ensures NormalizeSubjectId(subjectId) == SubjectAliases[subjectId]
  {
  }

  lemma NormalizeExample()
    ensures NormalizeSubjectId("s29-2") == "s29"
    ensures NormalizeSubjectId("s29") == "s29"
    ensures NormalizeSubjectId("s07") == "s07"
  {
  }

  /** A code that is not an alias comes back unchanged. */
  lemma NormalizeUnaliased(subjectId: string)
    requires subjectId !in SubjectAliases
    ensures NormalizeSubjectId(subjectId) == subjectId
  {
  }

  /** Canonical ids are fixed points. */
  lemma NormalizeCanonical(canonical: string)
    requires canonical in SubjectAliases.Values
    ensures NormalizeSubjectId(canonical) == canonical
  {
    NoAliasChains();
  }

  /** Normalising twice is normalising once. */
  lemma NormalizeIdempotent(subjectId: string)
    ensures NormalizeSubjectId(NormalizeSubjectId(subjectId)) == NormalizeSubjectId(subjectId)
  {
  }
}
