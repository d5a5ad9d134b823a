/** The single-slot document store (src/lib/sessionDocumentStore.ts): the
    document being read is kept under the key "active" and tagged with the
    id of the browser session that saved it; another session never sees it
    and deletes it. The IndexedDB slot and the sessionStorage entry are
    fields; the random id and the clock are parameters. */
module SessionDocumentStore {
  import opened Strings

  datatype DocumentFormat = Txt | Epub

  /** Lines 5-10: what callers save and read back. */
  datatype ActiveDocument = ActiveDocument(
    content: string, filename: string, format: DocumentFormat, encoding: Option<string>)

  /** Lines 12-16: the stored record, with its key, session tag and time. */
  datatype StoredDocument = StoredDocument(
    id: string, sessionId: string, updatedAt: int,
    content: string, filename: string, format: DocumentFormat, encoding: Option<string>)

  /** Line 20: the one key ever used. */
  const ActiveId: string := "active"

  /** Lines 112-117: the record saved for `doc` by session `sessionId` at
      time `now`. */
  function Stamp(doc: ActiveDocument, sessionId: string, now: int): (r: StoredDocument)
    ensures r.id == ActiveId && r.sessionId == sessionId && r.updatedAt == now
  {
    StoredDocument(ActiveId, sessionId, now, doc.content, doc.filename, doc.format, doc.encoding)
  }

  /** Lines 137-142: the document fields of a record, without its key, tag
      and time. */
  function ToActive(r: StoredDocument): ActiveDocument {
    ActiveDocument(r.content, r.filename, r.format, r.encoding)
  }

  /** Reading back what was stamped gives the document; stamping what was
      read, with the record's own tag and time, gives the record. */
  lemma StampRoundTrip(doc: ActiveDocument, sessionId: string, now: int, r: StoredDocument)
    requires r.id == ActiveId
    ensures ToActive(Stamp(doc, sessionId, now)) == doc
    ensures Stamp(ToActive(r), r.sessionId, r.updatedAt) == r
  {
  }

  /** The record a reader in session `sessionId` may see: only one saved by
      that same session. */
  function Visible(record: Option<StoredDocument>, sessionId: string): (r: Option<ActiveDocument>)
    ensures r.Some? <==> record.Some? && record.value.sessionId == sessionId
    ensures r.Some? ==> r.value == ToActive(record.value)
  {
    if record.Some? && record.value.sessionId == sessionId then Some(ToActive(record.value)) else None
  }

  class DocumentStore {
    /** The IndexedDB object store, reduced to its one slot. */
    var record: Option<StoredDocument>
    /** The sessionStorage entry holding the session id. */
    var sessionSlot: Option<string>
    /** Whether sessionStorage can be used; when not, reads give null and
        writes are dropped (lines 53-67). */
    var storageAvailable: bool

    /** Only the key "active" is ever written. */
    predicate Valid()
      reads this
    {
      record.Some? ==> record.value.id == ActiveId
    }

    constructor (storageAvailable: bool)
      ensures Valid() && record == None && sessionSlot == None
      ensures this.storageAvailable == storageAvailable
    {
      record := None;
      sessionSlot := None;
      this.storageAvailable := storageAvailable;
    }

    /** Lines 53-59: the stored id, or nothing when storage cannot be read. */
    function StoredSessionId(): (r: Option<string>)
      reads this
      ensures r.Some? ==> storageAvailable && sessionSlot == r
    {
      if storageAvailable then sessionSlot else None
    }

    /** Lines 85-96: delete the record unless it belongs to `activeSessionId`. */
    method PurgeOtherSessions(activeSessionId: string)
      requires Valid()
      modifies this
      ensures Valid() && sessionSlot == old(sessionSlot) && storageAvailable == old(storageAvailable)
      ensures record == if old(record).Some? && old(record).value.sessionId != activeSessionId
                        then None else old(record)
    {
      if record.None? || record.value.sessionId == activeSessionId {
        return;
      }
      record := None;
    }

    /** Lines 98-106: an existing, non-empty id is returned and nothing else
        happens; otherwise `freshId` (a new random id) is stored, if storage
        allows, and any record of another session is deleted. */
    method EnsureSessionId(freshId: string) returns (id: string)
      requires Valid() && freshId != ""
      modifies this
      ensures Valid() && storageAvailable == old(storageAvailable) && id != ""
      ensures old(StoredSessionId()).Some? && old(StoredSessionId()).value != "" ==>
        id == old(StoredSessionId()).value && record == old(record) && sessionSlot == old(sessionSlot)
      ensures !(old(StoredSessionId()).Some? && old(StoredSessionId()).value != "") ==>
        id == freshId
        && sessionSlot == (if storageAvailable then Some(freshId) else old(sessionSlot))
        && record == (if old(record).Some? && old(record).value.sessionId != freshId then None else old(record))
    {
      var existing := StoredSessionId();
      if existing.Some? && existing.value != "" {
        return existing.value;
      }
      if storageAvailable {
        sessionSlot := Some(freshId);
      }
      PurgeOtherSessions(freshId);
      id := freshId;
    }

    /** Lines 108-120: overwrite the slot with `doc`, tagged by the current
        session and stamped with `now`. */
    method SaveActiveDocument(doc: ActiveDocument, freshId: string, now: int)
      requires Valid() && freshId != ""
      modifies this
      ensures Valid() && storageAvailable == old(storageAvailable)
      ensures record.Some? && ToActive(record.value) == doc && record.value.updatedAt == now
      ensures old(StoredSessionId()).Some? && old(StoredSessionId()).value != "" ==>
        record.value.sessionId == old(StoredSessionId()).value && sessionSlot == old(sessionSlot)
      ensures !(old(StoredSessionId()).Some? && old(StoredSessionId()).value != "") ==>
        record.value.sessionId == freshId
      ensures storageAvailable ==> StoredSessionId() == Some(record.value.sessionId)
    {
      var sessionId := EnsureSessionId(freshId);
      record := Some(Stamp(doc, sessionId, now));
    }

    /** Lines 122-143: the stored document if the current session saved it;
        a record of another session is deleted and nothing is returned. */
    method GetActiveDocument(freshId: string) returns (doc: Option<ActiveDocument>)
      requires Valid() && freshId != ""
      modifies this
      ensures Valid() && storageAvailable == old(storageAvailable)
      ensures old(record).None? ==> doc == None && record == None
      ensures old(StoredSessionId()).Some? && old(StoredSessionId()).value != "" ==>
        sessionSlot == old(sessionSlot)
        && doc == Visible(old(record), old(StoredSessionId()).value)
        && record == (if doc.Some? then old(record) else None)
      ensures !(old(StoredSessionId()).Some? && old(StoredSessionId()).value != "") ==>
        doc == Visible(old(record), freshId)
        && record == (if doc.Some? then old(record) else None)
        && sessionSlot == (if storageAvailable then Some(freshId) else old(sessionSlot))
    {
      var sessionId := EnsureSessionId(freshId);
      if record.None? {
        return None;
      }
      if record.value.sessionId != sessionId {
        record := None;
        return None;
      }
      doc := Some(ToActive(record.value));
    }

    /** Lines 145-148: empty the slot. */
    method ClearActiveDocument()
      requires Valid()
      modifies this
      ensures Valid() && record == None
      ensures sessionSlot == old(sessionSlot) && storageAvailable == old(storageAvailable)
    {
      record := None;
    }
  }

  /** Within one session, a saved document is read back as it was saved,
      whatever fresh ids the two calls would have drawn. */
  method SaveThenGet(store: DocumentStore, doc: ActiveDocument, id1: string, id2: string, now: int)
    returns (got: Option<ActiveDocument>)
    requires store.Valid() && store.storageAvailable && id1 != "" && id2 != ""
    modifies store
    ensures got == Some(doc)
  {
    store.SaveActiveDocument(doc, id1, now);
    got := store.GetActiveDocument(id2);
  }

  /** After a clear nothing is read back. */
  method ClearThenGet(store: DocumentStore, id: string) returns (got: Option<ActiveDocument>)
    requires store.Valid() && id != ""
    modifies store
    ensures got == None && store.record == None
  {
    store.ClearActiveDocument();
    got := store.GetActiveDocument(id);
  }

  /** A new session (no id stored yet) reading a record left by another
      session gets nothing, the record is gone, and the new session's id is
      kept for its next call when storage allows. */
  method ForeignRecordDeleted(store: DocumentStore, id: string) returns (got: Option<ActiveDocument>)
    requires store.Valid() && id != "" && store.StoredSessionId() == None
    requires store.record.Some? && store.record.value.sessionId != id
    modifies store
    ensures got == None && store.record == None
    ensures store.storageAvailable ==> store.StoredSessionId() == Some(id)
  {
    got := store.GetActiveDocument(id);
  }

  /** Without sessionStorage each call draws a new id, so a document saved
      under one id is deleted, not returned, by a read that draws another. */
  method UnavailableStorageLosesDocument(store: DocumentStore, doc: ActiveDocument, id1: string, id2: string, now: int)
    returns (got: Option<ActiveDocument>)
    requires store.Valid() && !store.storageAvailable && id1 != "" && id2 != "" && id1 != id2
    modifies store
    ensures got == None && store.record == None
  {
    store.SaveActiveDocument(doc, id1, now);
    got := store.GetActiveDocument(id2);
  }
}
