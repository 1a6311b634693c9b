/** The RavenDB client seen through the four calls the sink makes: open an
    async session, stage a document, write its expiry metadata, save changes.
    A session records what it has staged and every batch of changes it has
    sent; network I/O and failures are not modelled. */
module RavenClient {
  import opened Wrappers
  import opened LogEvents

  /** An `IDocumentStore`, reduced to the database its sessions open by default. */
  datatype DocumentStore = DocumentStore(database: string)

  /** A staged document and its `@expires` metadata entry, if one was written. */
  datatype Staged = Staged(doc: Doc, expires: Option<int>)

  /** An open session: its database, the documents staged since the last save,
      and the snapshots sent by each `SaveChangesAsync`. */
  datatype Session = Session(database: string, pending: seq<Staged>, committed: seq<seq<Staged>>)

  /** `OpenAsyncSession()` when `database` is absent, `OpenAsyncSession(database)` otherwise. */
  function Open(store: DocumentStore, database: Option<string>): (s: Session)
    ensures s.pending == [] && s.committed == []
    ensures database.None? ==> s.database == store.database
    ensures database.Some? ==> s.database == database.value
  {
    Session(database.ValueOr(store.database), [], [])
  }

  /** `StoreAsync(doc)`: stages the document, without metadata, after those already staged. */
  function Store(s: Session, doc: Doc): (s': Session)
    ensures s'.database == s.database && s'.committed == s.committed
    ensures |s'.pending| == |s.pending| + 1
    ensures s'.pending[..|s.pending|] == s.pending
    ensures s'.pending[|s.pending|] == Staged(doc, None)
  {
    s.(pending := s.pending + [Staged(doc, None)])
  }

  /** `GetMetadataFor(doc)[Expires] = at` for the i-th staged document. */
  function SetExpires(s: Session, i: nat, at: int): (s': Session)
    requires i < |s.pending|
    ensures s'.database == s.database && s'.committed == s.committed
    ensures |s'.pending| == |s.pending|
    ensures s'.pending[i] == Staged(s.pending[i].doc, Some(at))
    ensures forall j :: 0 <= j < |s.pending| && j != i ==> s'.pending[j] == s.pending[j]
  {
    s.(pending := s.pending[i := Staged(s.pending[i].doc, Some(at))])
  }

  /** `SaveChangesAsync()`: sends everything staged as one batch. */
  function SaveChanges(s: Session): (s': Session)
    ensures s'.database == s.database
    ensures s'.pending == []
    ensures s'.committed == s.committed + [s.pending]
  {
    s.(pending := [], committed := s.committed + [s.pending])
  }
}
