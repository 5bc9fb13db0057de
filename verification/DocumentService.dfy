/** The document service keeps store and index in agreement (internal/document/service/service.go). */
module DocumentService {
  import opened Common
  import opened Documents
  import opened DocumentIndex

  datatype ServiceError = InvalidID | NotFound | StorageFailed

  /** The document as stored: with its id inside. */
  function WithID(id: string, doc: Document): Document {
    doc["_id" := Text(id)]
  }

  /** An id is in index[field][text] exactly when its stored document has that indexable field with that text. */
  ghost predicate Agrees(sprint: Value -> string, store: map<string, Document>, index: Index) {
    forall f, t, id :: Has(index, f, t, id) <==> id in store && Indexes(IndexableFields(sprint, store[id]), f, t)
  }

  /** Every indexed field of one document is indexed under the same text for the other. */
  ghost predicate Covers(sprint: Value -> string, newDoc: Document, oldDoc: Document) {
    forall f, t :: Indexes(IndexableFields(sprint, oldDoc), f, t) ==> Indexes(IndexableFields(sprint, newDoc), f, t)
  }

  class Service {
    const indexes: IndexManager
    var store: map<string, Document>

    /** What always holds, even after a document was created over another one. */
    ghost predicate Sound()
      reads this, indexes
    {
      Tidy(indexes.indexes) && "" !in store && forall f, t :: !Has(indexes.indexes, f, t, "")
    }

    ghost predicate Valid()
      reads this, indexes
    {
      Sound() && Agrees(indexes.sprint, store, indexes.indexes)
    }

    constructor (sprint: Value -> string)
      ensures Valid() && store == map[] && fresh(indexes) && indexes.sprint == sprint
    {
      indexes := new IndexManager(sprint);
      store := map[];
    }

    method Get(id: string) returns (result: Result<Document, ServiceError>)
      ensures result == if id == "" then Err(InvalidID) else if id in store then Ok(store[id]) else Err(NotFound)
    {
      if id == "" {
        return Err(InvalidID);
      }
      if id !in store {
        return Err(NotFound);
      }
      return Ok(store[id]);
    }

    /** CreateWithID stores and indexes without looking for an older document: over an existing one the
        agreement survives exactly when the new document is indexed everywhere the old one was. */
    method CreateWithID(id: string, doc: Document, storageOk: bool) returns (result: Result<(), ServiceError>)
      requires Sound()
      modifies this, indexes`indexes
      ensures Sound()
      ensures result == if id == "" then Err(InvalidID) else if storageOk then Ok(()) else Err(StorageFailed)
      ensures result.Err? ==> store == old(store) && indexes.indexes == old(indexes.indexes)
      ensures result.Ok? ==> store == old(store)[id := WithID(id, doc)] && store[id] == doc["_id" := Text(id)]
      ensures result.Ok? && old(Valid()) ==>
                (Valid() <==> (id in old(store) ==> Covers(indexes.sprint, WithID(id, doc), old(store)[id])))
    {
      var stored := WithID(id, doc);
      if id == "" {
        return Err(InvalidID);
      }
      if !storageOk {
        return Err(StorageFailed);
      }
      store := store[id := stored];
      indexes.IndexDocument(id, stored);
      if old(Valid()) {
        AgreesAfterCreate(indexes.sprint, old(store), old(indexes.indexes), indexes.indexes, id, stored);
      }
      return Ok(());
    }

    /** Update replaces a document and reindexes it. */
    method Update(id: string, doc: Document, storageOk: bool) returns (result: Result<(), ServiceError>)
      requires Sound()
      modifies this, indexes`indexes
      ensures Sound() && (old(Valid()) ==> Valid())
      ensures id == "" ==> result == Err(InvalidID)
      ensures id != "" && id !in old(store) ==> result == Err(NotFound)
      ensures id != "" && id in old(store) ==> result == if storageOk then Ok(()) else Err(StorageFailed)
      ensures store == if result.Ok? then old(store)[id := doc["_id" := Text(id)]] else old(store)
    {
      var oldDoc := Get(id);
      if oldDoc.Err? {
        return Err(oldDoc.error);
      }
      var updated := WithID(id, doc);
      if !storageOk {
        return Err(StorageFailed);
      }
      store := store[id := updated];
      indexes.UpdateDocument(id, oldDoc.value, updated);
      return Ok(());
    }

    /** Delete takes the document out of the index first and puts it back if the storage fails. */
    method Delete(id: string, storageOk: bool) returns (result: Result<(), ServiceError>)
      requires Sound()
      modifies this, indexes`indexes
      ensures Sound() && (old(Valid()) ==> Valid())
      ensures id == "" ==> result == Err(InvalidID)
      ensures id != "" && id !in old(store) ==> result == Err(NotFound)
      ensures id != "" && id in old(store) ==> result == if storageOk then Ok(()) else Err(StorageFailed)
      ensures store == if result.Ok? then old(store) - {id} else old(store)
    {
      var doc := Get(id);
      if doc.Err? {
        return Err(doc.error);
      }
      indexes.RemoveDocument(id, doc.value);
      if !storageOk {
        indexes.IndexDocument(id, doc.value);
        return Err(StorageFailed);
      }
      store := store - {id};
      return Ok(());
    }

    /** The index manager's field list names exactly the fields that stored documents can be found by. */
    method IndexedFields() returns (fields: seq<string>)
      requires Valid()
      ensures Ascending(fields)
      ensures forall f :: f in fields <==> Findable(indexes.sprint, store, f)
      ensures forall f :: f in fields <==>
                exists id :: id in store && f in store[id] && f != "_id" && !store[id][f].Nested?
    {
      fields := indexes.Fields();
      forall f | f in fields
        ensures Findable(indexes.sprint, store, f)
      {
        var t, i :| Has(indexes.indexes, f, t, i);
        assert i in store && f in IndexableFields(indexes.sprint, store[i]);
      }
      forall f | Findable(indexes.sprint, store, f)
        ensures f in fields
      {
        var id :| id in store && f in IndexableFields(indexes.sprint, store[id]);
        assert Has(indexes.indexes, f, IndexableFields(indexes.sprint, store[id])[f], id);
      }
    }
  }

  ghost predicate Findable(sprint: Value -> string, store: map<string, Document>, f: string) {
    exists id :: id in store && f in IndexableFields(sprint, store[id])
  }

  lemma AgreesAfterCreate(sprint: Value -> string, store: map<string, Document>, before: Index, after: Index,
                          id: string, stored: Document)
    requires Agrees(sprint, store, before)
    requires forall f, t, i :: Has(after, f, t, i) <==>
               Has(before, f, t, i) || (i == id && Indexes(IndexableFields(sprint, stored), f, t))
    ensures Agrees(sprint, store[id := stored], after) <==> (id in store ==> Covers(sprint, stored, store[id]))
  {
    if id in store && Agrees(sprint, store[id := stored], after) {
      forall f, t | Indexes(IndexableFields(sprint, store[id]), f, t)
        ensures Indexes(IndexableFields(sprint, stored), f, t)
      {
        assert Has(before, f, t, id) && Has(after, f, t, id);
      }
    }
    if id in store ==> Covers(sprint, stored, store[id]) {
      forall f, t, i
        ensures Has(after, f, t, i) <==>
                  i in store[id := stored] && Indexes(IndexableFields(sprint, store[id := stored][i]), f, t)
      {
        assert Has(before, f, t, i) <==> i in store && Indexes(IndexableFields(sprint, store[i]), f, t);
      }
    }
  }

  /** Two creations under one id: the index keeps the text of the first document. */
  method CreateTwice(service: Service, id: string, field: string, older: Value, newer: Value)
    requires service.Valid() && id != "" && field != "_id" && id !in service.store
    requires !older.Nested? && service.indexes.sprint(older) != service.indexes.sprint(newer)
    modifies service, service.indexes`indexes
    ensures service.Sound() && !service.Valid()
    ensures service.store == old(service.store)[id := WithID(id, map[field := newer])]
  {
    hide Agrees;
    hide Covers;
    NotCovered(service.indexes.sprint, id, field, older, newer);
    var _ := service.CreateWithID(id, map[field := older], true);
    var _ := service.CreateWithID(id, map[field := newer], true);
  }

  lemma NotCovered(sprint: Value -> string, id: string, field: string, older: Value, newer: Value)
    requires field != "_id" && !older.Nested? && sprint(older) != sprint(newer)
    ensures !Covers(sprint, WithID(id, map[field := newer]), WithID(id, map[field := older]))
  {
    assert Indexes(IndexableFields(sprint, WithID(id, map[field := older])), field, sprint(older));
    assert !Indexes(IndexableFields(sprint, WithID(id, map[field := newer])), field, sprint(older));
  }
}
