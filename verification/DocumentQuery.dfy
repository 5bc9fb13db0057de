/** Queries by field: filter through the index, sort, slice (internal/document/service/service.go). */
module DocumentQuery {
  import opened Common
  import opened Documents
  import opened DocumentIndex
  import opened DocumentService
  import opened StableSort
  import StringOrder

  // ---- comparing by a field ---------------------------------------------------------------

  predicate Missing(doc: Document, field: string) {
    field !in doc || doc[field] == Null
  }

  /** lessByField: missing values last in both directions, values of different or uncomparable types never less. */
  predicate LessByField(left: Document, right: Document, field: string, descending: bool) {
    if Missing(left, field) then false
    else if Missing(right, field) then true
    else match (left[field], right[field])
      case (Text(a), Text(b)) => if descending then StringOrder.Less(b, a) else StringOrder.Less(a, b)
      case (Number(a), Number(b)) => if descending then a > b else a < b
      case (Bool(a), Bool(b)) => if descending then a && !b else !a && b
      case _ => false
  }

  function ByField(field: string, descending: bool): (Document, Document) -> bool {
    (left, right) => LessByField(left, right, field, descending)
  }

  datatype Kind = Texts | Numbers | Bools

  predicate IsKind(v: Value, kind: Kind) {
    match kind
    case Texts => v.Text?
    case Numbers => v.Number?
    case Bools => v.Bool?
  }

  /** All documents have the field missing or of one scalar type. */
  ghost predicate OneKind(docs: seq<Document>, field: string, kind: Kind) {
    forall d :: d in docs ==> Missing(d, field) || IsKind(d[field], kind)
  }

  lemma TextsAreOrdered(x: string, y: string, z: string)
    ensures !StringOrder.Less(x, x)
    ensures StringOrder.Less(x, y) && StringOrder.Less(y, z) ==> StringOrder.Less(x, z)
    ensures StringOrder.Less(x, z) ==> StringOrder.Less(x, y) || StringOrder.Less(y, z)
  {
    StringOrder.Irreflexive(x);
    if StringOrder.Less(x, y) && StringOrder.Less(y, z) {
      StringOrder.Transitive(x, y, z);
    }
    StringOrder.Total(x, y);
    if StringOrder.Less(x, z) && StringOrder.Less(y, x) {
      StringOrder.Transitive(y, x, z);
    }
  }

  /** On values of one scalar type or none, the comparison is a strict weak order in both directions. */
  lemma OneKindIsStrictWeak(docs: seq<Document>, field: string, descending: bool, kind: Kind)
    requires OneKind(docs, field, kind)
    ensures StrictWeak(ByField(field, descending), docs)
  {
    var less := ByField(field, descending);
    forall x, y, z | x in docs && y in docs && z in docs
      ensures !less(x, x)
      ensures less(x, y) && less(y, z) ==> less(x, z)
      ensures less(x, z) ==> less(x, y) || less(y, z)
    {
      OrderedTriple(x, y, z, field, descending, kind);
    }
  }

  lemma OrderedTriple(x: Document, y: Document, z: Document, field: string, descending: bool, kind: Kind)
    requires Missing(x, field) || IsKind(x[field], kind)
    requires Missing(y, field) || IsKind(y[field], kind)
    requires Missing(z, field) || IsKind(z[field], kind)
    ensures !LessByField(x, x, field, descending)
    ensures LessByField(x, y, field, descending) && LessByField(y, z, field, descending) ==>
              LessByField(x, z, field, descending)
    ensures LessByField(x, z, field, descending) ==>
              LessByField(x, y, field, descending) || LessByField(y, z, field, descending)
  {
    if !Missing(x, field) && kind == Texts {
      StringOrder.Irreflexive(x[field].s);
      if !Missing(y, field) && !Missing(z, field) {
        TextsAreOrdered(x[field].s, y[field].s, z[field].s);
        TextsAreOrdered(z[field].s, y[field].s, x[field].s);
      }
    }
  }

  /** No two documents with the field are put in any order by it. */
  ghost predicate Indifferent(docs: seq<Document>, field: string) {
    forall x, y :: x in docs && y in docs && !Missing(x, field) && !Missing(y, field) ==>
        !LessByField(x, y, field, false)
  }

  /** The documents can be sorted by the field. */
  ghost predicate Sortable(docs: seq<Document>, field: string) {
    Indifferent(docs, field) || exists kind :: OneKind(docs, field, kind)
  }

  lemma IndifferentIsStrictWeak(docs: seq<Document>, field: string, descending: bool)
    requires Indifferent(docs, field)
    ensures StrictWeak(ByField(field, descending), docs)
  {
    forall x, y | x in docs && y in docs
      ensures ByField(field, descending)(x, y) <==> !Missing(x, field) && Missing(y, field)
    {
      if !Missing(x, field) && !Missing(y, field) {
        OppositeDirections(x, y, field);
        assert !LessByField(x, y, field, false) && !LessByField(y, x, field, false);
      }
    }
  }

  lemma OppositeDirections(x: Document, y: Document, field: string)
    requires !Missing(x, field) && !Missing(y, field)
    ensures LessByField(x, y, field, true) <==> LessByField(y, x, field, false)
  {
  }

  function KindOf(v: Value): Kind
    requires v.Text? || v.Number? || v.Bool?
  {
    if v.Text? then Texts else if v.Number? then Numbers else Bools
  }

  /** Two documents in order fix the kind of all the others: one of another kind would tie with both. */
  lemma StrictWeakHasOneKind(docs: seq<Document>, field: string, descending: bool, x: Document, y: Document)
    requires StrictWeak(ByField(field, descending), docs)
    requires x in docs && y in docs && !Missing(x, field) && !Missing(y, field) && LessByField(x, y, field, descending)
    ensures OneKind(docs, field, KindOf(x[field]))
  {
    var less := ByField(field, descending);
    forall d | d in docs && !Missing(d, field)
      ensures IsKind(d[field], KindOf(x[field]))
    {
      assert less(x, y) ==> less(x, d) || less(d, y);
    }
  }

  /** The comparison is a strict weak order on some documents exactly when they can be sorted by the field: the
      values are missing or of one scalar type, or no two of them are ordered at all. */
  lemma StrictWeakIffSortable(docs: seq<Document>, field: string, descending: bool)
    ensures StrictWeak(ByField(field, descending), docs) <==> Sortable(docs, field)
  {
    if Indifferent(docs, field) {
      IndifferentIsStrictWeak(docs, field, descending);
    } else {
      if kind :| OneKind(docs, field, kind) {
        OneKindIsStrictWeak(docs, field, descending, kind);
      }
      if StrictWeak(ByField(field, descending), docs) {
        var x, y :| x in docs && y in docs && !Missing(x, field) && !Missing(y, field) &&
            LessByField(x, y, field, false);
        OppositeDirections(y, x, field);
        if descending {
          StrictWeakHasOneKind(docs, field, descending, y, x);
        } else {
          StrictWeakHasOneKind(docs, field, descending, x, y);
        }
      }
    }
  }

  /** Whatever sorts by the field puts the documents without it last, ascending or descending. */
  lemma MissingComeLast(docs: seq<Document>, sorted: seq<Document>, field: string, descending: bool, i: nat, j: nat)
    requires IsStableSort(ByField(field, descending), docs, sorted)
    requires i < j < |sorted| && Missing(sorted[i], field)
    ensures Missing(sorted[j], field)
  {
    assert !ByField(field, descending)(sorted[j], sorted[i]);
  }

  /** Values of different types break the order: "a" ties with 1 and 1 ties with "b", but "a" precedes "b". */
  lemma MixedTypesAreNotStrictWeak()
    ensures var a, one, b := map["f" := Text("a")], map["f" := Number(1.0)], map["f" := Text("b")];
            !StrictWeak(ByField("f", false), [a, one, b])
  {
    var a: Document := map["f" := Text("a")];
    var one: Document := map["f" := Number(1.0)];
    var b: Document := map["f" := Text("b")];
    var docs := [a, one, b];
    assert a in docs && one in docs && b in docs;
    assert StringOrder.Less("a", "b");
    assert ByField("f", false)(a, b) && !ByField("f", false)(a, one) && !ByField("f", false)(one, b);
  }

  // ---- the direction of the order --------------------------------------------------------------

  /** Numbers go up, texts go up, false comes before true. */
  ghost predicate Ascends(docs: seq<Document>, f: string) {
    forall i, j :: 0 <= i < j < |docs| && f in docs[i] && f in docs[j] ==> NotAfter(docs[i][f], docs[j][f])
  }

  /** Numbers go down, texts go down, true comes before false. */
  ghost predicate Descends(docs: seq<Document>, f: string) {
    forall i, j :: 0 <= i < j < |docs| && f in docs[i] && f in docs[j] ==> NotAfter(docs[j][f], docs[i][f])
  }

  predicate NotAfter(left: Value, right: Value) {
    && (left.Number? && right.Number? ==> left.n <= right.n)
    && (left.Text? && right.Text? ==> !StringOrder.Less(right.s, left.s))
    && (left.Bool? && right.Bool? ==> (left.b ==> right.b))
  }

  /** What the sort option asks for: down behind a leading '-', up otherwise, documents without the field last. */
  ghost predicate GoesOneWay(docs: seq<Document>, sortField: string)
    requires sortField != ""
  {
    if sortField[0] == '-' then Descends(docs, sortField[1..]) && MissingAtTheEnd(docs, sortField[1..])
    else Ascends(docs, sortField) && MissingAtTheEnd(docs, sortField)
  }

  /** The field is missing or of one scalar type throughout. */
  ghost predicate OfOneKind(docs: seq<Document>, f: string) {
    exists kind :: OneKind(docs, f, kind)
  }

  /** After a document without the field, or with null in it, there are only such documents. */
  ghost predicate MissingAtTheEnd(docs: seq<Document>, f: string) {
    forall i, j :: 0 <= i < j < |docs| && (f !in docs[i] || docs[i][f] == Null) ==> f !in docs[j] || docs[j][f] == Null
  }

  lemma OrderedGoesOneWay(docs: seq<Document>, field: string, descending: bool)
    requires Ordered(ByField(field, descending), docs)
    ensures descending ==> Descends(docs, field)
    ensures !descending ==> Ascends(docs, field)
    ensures MissingAtTheEnd(docs, field)
  {
    forall i, j | 0 <= i < j < |docs|
      ensures !LessByField(docs[j], docs[i], field, descending)
    {
      assert !ByField(field, descending)(docs[j], docs[i]);
    }
  }

  // ---- pages ------------------------------------------------------------------------------

  /** The slice from offset to offset + limit; a negative limit is none. */
  function Page<T>(s: seq<T>, offset: nat, limit: int): seq<T> {
    if offset >= |s| then [] else if limit < 0 then s[offset..] else Take(s[offset..], limit)
  }

  /** Element by element: the page starts at the offset and has as many elements as the limit allows and there are. */
  lemma PageElements<T>(s: seq<T>, offset: nat, limit: int)
    ensures var p := Page(s, offset, limit);
            && |p| == (if offset >= |s| then 0 else if limit < 0 || offset + limit > |s| then |s| - offset else limit)
            && forall k :: 0 <= k < |p| ==> p[k] == s[offset + k]
  {
  }

  /** Consecutive pages join without gap or overlap, up to the unpaged result. */
  lemma PagesJoin<T>(s: seq<T>, offset: nat, first: nat, second: int)
    ensures Page(s, offset, first) + Page(s, offset + first, second) ==
            Page(s, offset, if second < 0 then second else first + second)
    ensures Page(s, 0, -1) == s
  {
    if offset + first < |s| {
      assert s[offset..][first..] == s[offset + first..];
      assert s[offset..] == s[offset..][..first] + s[offset..][first..];
    }
  }

  // ---- the query ----------------------------------------------------------------------------

  /** The stored documents of some ids, in their order; ids without a document are passed over. */
  function Survivors(ids: seq<string>, store: map<string, Document>): seq<Document> {
    if ids == [] then []
    else
      var n := |ids| - 1;
      Survivors(ids[..n], store) + (if ids[n] in store then [store[ids[n]]] else [])
  }

  lemma OneMoreSurvivor(ids: seq<string>, i: nat, store: map<string, Document>)
    requires i < |ids|
    ensures Survivors(ids[..i + 1], store) ==
            Survivors(ids[..i], store) + (if ids[i] in store then [store[ids[i]]] else [])
  {
    assert ids[..i + 1][..i] == ids[..i];
  }

  /** Ids without a document are passed over, and the others keep their order. */
  lemma {:induction false} SurvivorsAreStored(ids: seq<string>, store: map<string, Document>)
    ensures var kept := Filter(ids, id => id in store);
            && |Survivors(ids, store)| == |kept|
            && forall i :: 0 <= i < |kept| ==> kept[i] in store && Survivors(ids, store)[i] == store[kept[i]]
    decreases |ids|
  {
    if ids != [] {
      var n := |ids| - 1;
      SurvivorsAreStored(ids[..n], store);
      assert ids == ids[..n] + [ids[n]];
      FilterConcat(ids[..n], [ids[n]], id => id in store);
      assert [ids[n]][1..] == [];
    }
  }

  lemma {:induction false} SurvivorsOfPrefix(ids: seq<string>, i: nat, store: map<string, Document>)
    requires i <= |ids|
    ensures Survivors(ids[..i], store) <= Survivors(ids, store)
    decreases |ids|
  {
    if i == |ids| {
      assert ids[..i] == ids;
    } else {
      var n := |ids| - 1;
      SurvivorsOfPrefix(ids[..n], i, store);
      assert ids[..n][..i] == ids[..i];
    }
  }

  /** Reads the documents of all ids. */
  method Load(service: Service, ids: seq<string>) returns (docs: seq<Document>)
    requires "" !in ids
    ensures docs == Survivors(ids, service.store)
  {
    docs := [];
    for i := 0 to |ids|
      invariant docs == Survivors(ids[..i], service.store)
    {
      OneMoreSurvivor(ids, i, service.store);
      var doc := service.Get(ids[i]);
      assert ids[i] in ids;
      if doc.Err? {
        continue;
      }
      docs := docs + [doc.value];
    }
    assert ids[..|ids|] == ids;
  }

  /** The unsorted path: skips up to the offset and stops at the limit while it reads. */
  method LoadPage(service: Service, ids: seq<string>, limit: int, offset: nat) returns (results: seq<Document>)
    requires "" !in ids
    ensures results == Page(Survivors(ids, service.store), offset, limit)
  {
    results := [];
    var matched := 0;
    ghost var all := Survivors(ids, service.store);
    for i := 0 to |ids|
      invariant results == Page(Survivors(ids[..i], service.store), offset, limit)
      invariant matched == |Survivors(ids[..i], service.store)|
      invariant matched <= offset || limit < 0 || |results| < limit
    {
      OneMoreSurvivor(ids, i, service.store);
      SurvivorsOfPrefix(ids, i, service.store);
      SurvivorsOfPrefix(ids, i + 1, service.store);
      var doc := service.Get(ids[i]);
      assert ids[i] in ids;
      if doc.Err? {
        continue;
      }
      if matched < offset {
        matched := matched + 1;
        continue;
      }
      if limit == 0 {
        PageIsFull(Survivors(ids[..i], service.store), all, offset, limit);
        return;
      }
      PageGrows(Survivors(ids[..i], service.store), doc.value, offset, limit);
      results := results + [doc.value];
      matched := matched + 1;
      if limit > 0 && |results| == limit {
        PageIsFull(Survivors(ids[..i + 1], service.store), all, offset, limit);
        return;
      }
    }
    assert ids[..|ids|] == ids;
  }

  lemma PageGrows<T>(s: seq<T>, x: T, offset: nat, limit: int)
    requires |s| >= offset && (limit < 0 || |Page(s, offset, limit)| < limit)
    ensures Page(s + [x], offset, limit) == Page(s, offset, limit) + [x]
  {
  }

  lemma PageIsFull<T>(s: seq<T>, all: seq<T>, offset: nat, limit: int)
    requires s <= all && |s| >= offset && limit >= 0 && |Page(s, offset, limit)| == limit
    ensures Page(all, offset, limit) == Page(s, offset, limit)
  {
  }

  const MAX_INT := 0x7fff_ffff_ffff_ffff

  /** The field that a sort option names; a leading '-' reverses the comparison. */
  function SortName(sortField: string): string {
    if sortField != "" && sortField[0] == '-' then sortField[1..] else sortField
  }

  function SortOrder(sortField: string): (Document, Document) -> bool {
    ByField(SortName(sortField), sortField != "" && sortField[0] == '-')
  }

  type Library = ((Document, Document) -> bool, seq<Document>) -> seq<Document>

  /** What becomes of the documents found before the page is cut: nothing without a sort option, and with one whatever
      the library's sort makes of them. */
  function InOrder(library: Library, docs: seq<Document>, sortField: string): seq<Document> {
    if sortField == "" then docs else library(SortOrder(sortField), docs)
  }

  /** That is always a permutation, and their one stable sort whenever they can be sorted by the field. */
  lemma InOrderIsSorted(library: Library, docs: seq<Document>, sortField: string)
    requires IsLibrarySort(library)
    ensures multiset(InOrder(library, docs, sortField)) == multiset(docs)
    ensures sortField != "" && Sortable(docs, SortName(sortField)) ==>
              && IsStableSort(SortOrder(sortField), docs, InOrder(library, docs, sortField))
              && InOrder(library, docs, sortField) == Sort(SortOrder(sortField), docs)
  {
    var less := SortOrder(sortField);
    assert multiset(library(less, docs)) == multiset(docs);
    StrictWeakIffSortable(docs, SortName(sortField), sortField != "" && sortField[0] == '-');
    hide Sortable;
    hide StrictWeak;
    hide IsStableSort;
    if StrictWeak(less, docs) {
      StableSortIsUnique(less, docs, library(less, docs));
    }
  }

  /** The ids of the stored documents that carry a field with a text: the plain filter. */
  function Matching(sprint: Value -> string, store: map<string, Document>, field: string, text: string): set<string> {
    set id | id in store && Indexes(IndexableFields(sprint, store[id]), field, text)
  }

  /** The documents that the index leads to, in the order of their ids. */
  ghost function Found(service: Service, field: string, value: Value): seq<Document>
    reads service, service.indexes
  {
    Survivors(Sorted(IdsUnder(service.indexes.indexes, field, service.indexes.sprint(value))), service.store)
  }

  /** The unpaged result of a query. */
  ghost function AllFound(service: Service, library: Library, field: string, value: Value,
                          sortField: string): seq<Document>
    reads service, service.indexes
  {
    InOrder(library, Found(service, field, value), sortField)
  }

  /** Any page of a sorted result goes the way the option asks for. */
  lemma PageGoesOneWay(library: Library, docs: seq<Document>, sortField: string, offset: nat, limit: int)
    requires IsLibrarySort(library) && sortField != "" && OfOneKind(docs, SortName(sortField))
    ensures GoesOneWay(Page(InOrder(library, docs, sortField), offset, limit), sortField)
  {
    var all := InOrder(library, docs, sortField);
    InOrderIsSorted(library, docs, sortField);
    assert Ordered(SortOrder(sortField), all);
    OrderedGoesOneWay(all, SortName(sortField), sortField[0] == '-');
    assert GoesOneWay(all, sortField);
    PageOfOneWay(all, sortField, offset, limit);
  }

  lemma PageOfOneWay(all: seq<Document>, sortField: string, offset: nat, limit: int)
    requires sortField != "" && GoesOneWay(all, sortField)
    ensures GoesOneWay(Page(all, offset, limit), sortField)
  {
    PageElements(all, offset, limit);
    hide Page;
    hide NotAfter;
  }

  /** The document has the field, not "_id" and not nested, with the text. */
  predicate Carries(sprint: Value -> string, doc: Document, field: string, text: string) {
    field in doc && field != "_id" && !doc[field].Nested? && sprint(doc[field]) == text
  }

  function CarryingIds(service: Service, field: string, text: string): set<string>
    reads service
  {
    set id | id in service.store && Carries(service.indexes.sprint, service.store[id], field, text)
  }

  lemma CarriersMatch(service: Service, field: string, text: string)
    ensures CarryingIds(service, field, text) == Matching(service.indexes.sprint, service.store, field, text)
  {
    forall id | id in service.store
      ensures Carries(service.indexes.sprint, service.store[id], field, text) <==>
              Indexes(IndexableFields(service.indexes.sprint, service.store[id]), field, text)
    {
    }
  }

  /** While store and index agree, a query finds exactly the stored documents that carry the field with the value's
      text, each as often as it is stored. */
  lemma OnlyMatchesAreFound(service: Service, library: Library, field: string, value: Value, sortField: string)
    requires service.Valid() && IsLibrarySort(library)
    ensures var all := AllFound(service, library, field, value, sortField);
            var ids := CarryingIds(service, field, service.indexes.sprint(value));
            (forall d :: d in all <==> exists id :: id in ids && service.store[id] == d) && |all| == |ids|
  {
    var all := AllFound(service, library, field, value, sortField);
    var found := Found(service, field, value);
    var ids := CarryingIds(service, field, service.indexes.sprint(value));
    QueryIsAFilter(service, field, service.indexes.sprint(value));
    CarriersMatch(service, field, service.indexes.sprint(value));
    InOrderIsSorted(library, found, sortField);
    SortedLength(ids);
    SameElements(all, found);
    hide IsLibrarySort;
    hide CarryingIds;
    hide Matching;
    hide Survivors;
    hide InOrder;
    forall d
      ensures d in all <==> exists id :: id in ids && service.store[id] == d
    {
      FoundMembers(Sorted(ids), found, service.store, d);
    }
  }

  lemma SameElements(a: seq<Document>, b: seq<Document>)
    requires multiset(a) == multiset(b)
    ensures |a| == |b| && forall d :: d in a <==> d in b
  {
    assert |a| == |multiset(a)| == |multiset(b)| == |b|;
    forall d
      ensures d in a <==> d in b
    {
      assert d in a <==> d in multiset(a);
      assert d in b <==> d in multiset(b);
    }
  }

  lemma PageOnlyMatches(service: Service, library: Library, field: string, value: Value, sortField: string, offset: nat,
                        limit: int)
    requires service.Valid() && IsLibrarySort(library)
    ensures forall d: Document :: d in Page(AllFound(service, library, field, value, sortField), offset, limit) ==>
              && Carries(service.indexes.sprint, d, field, service.indexes.sprint(value))
              && exists id :: id in service.store && service.store[id] == d
  {
    var all := AllFound(service, library, field, value, sortField);
    OnlyMatchesAreFound(service, library, field, value, sortField);
    PageElements(all, offset, limit);
    hide AllFound;
    hide Carries;
    forall d: Document | d in Page(all, offset, limit)
      ensures Carries(service.indexes.sprint, d, field, service.indexes.sprint(value))
      ensures exists id :: id in service.store && service.store[id] == d
    {
      var k :| 0 <= k < |Page(all, offset, limit)| && Page(all, offset, limit)[k] == d;
      assert d in all;
      var id :| id in CarryingIds(service, field, service.indexes.sprint(value)) && service.store[id] == d;
    }
  }

  lemma FoundMembers(order: seq<string>, found: seq<Document>, store: map<string, Document>, d: Document)
    requires |found| == |order| && forall i :: 0 <= i < |order| ==> order[i] in store && found[i] == store[order[i]]
    ensures d in found <==> exists id :: id in order && store[id] == d
  {
    if d in found {
      var i :| 0 <= i < |found| && found[i] == d;
      assert order[i] in order;
    }
    if id :| id in order && store[id] == d {
      var i :| 0 <= i < |order| && order[i] == id;
      assert found[i] == d;
    }
  }

  /** FindByField refines filter, sort and slice: while store and index agree, it returns the page of exactly the
      matching documents, in id order or sorted. It never needs the agreement to be safe: without it, what the index
      holds is looked up and ids without a document are passed over. */
  method FindByField(service: Service, library: Library, field: string, value: Value, limit: int, offset: int,
                     sortField: string)
    returns (results: seq<Document>)
    requires service.Sound()
    requires sortField != "" ==> offset >= 0 && offset + limit <= MAX_INT
    ensures results == Page(AllFound(service, library, field, value, sortField),
              if offset < 0 then 0 else offset, limit)
    ensures service.Valid() ==>
              var ids := Sorted(Matching(service.indexes.sprint, service.store, field, service.indexes.sprint(value)));
              results == Page(InOrder(library, Survivors(ids, service.store), sortField),
                              if offset < 0 then 0 else offset, limit)
    ensures IsLibrarySort(library) && sortField != "" &&
              OfOneKind(Found(service, field, value), SortName(sortField)) ==>
              GoesOneWay(results, sortField)
    ensures service.Valid() && IsLibrarySort(library) ==>
              forall d: Document :: d in results ==>
                && Carries(service.indexes.sprint, d, field, service.indexes.sprint(value))
                && exists id :: id in service.store && service.store[id] == d
  {
    hide OfOneKind;
    hide GoesOneWay;
    hide Carries;
    hide Page;
    hide Survivors;
    if IsLibrarySort(library) && sortField != "" && OfOneKind(Found(service, field, value), SortName(sortField)) {
      PageGoesOneWay(library, Found(service, field, value), sortField, if offset < 0 then 0 else offset, limit);
    }
    if service.Valid() && IsLibrarySort(library) {
      PageOnlyMatches(service, library, field, value, sortField, if offset < 0 then 0 else offset, limit);
    }
    if service.Valid() {
      QueryIsAFilter(service, field, service.indexes.sprint(value));
    }
    var found := service.indexes.Lookup(field, value);
    assert "" !in found;
    if sortField != "" {
      results := FindSorted(service, library, found, limit, offset, sortField);
      return;
    }
    results := LoadPage(service, found, limit, if offset < 0 then 0 else offset);
  }

  method FindSorted(service: Service, library: Library, ids: seq<string>, limit: int, offset: nat, sortField: string)
    returns (results: seq<Document>)
    requires "" !in ids && sortField != ""
    ensures results == Page(InOrder(library, Survivors(ids, service.store), sortField), offset, limit)
  {
    var docs := Load(service, ids);
    var descending, name := false, sortField;
    if sortField[0] == '-' {
      descending := true;
      name := sortField[1..];
    }
    docs := library(ByField(name, descending), docs);
    if offset >= |docs| {
      return [];
    }
    var end := |docs|;
    if limit >= 0 && offset + limit < end {
      end := offset + limit;
    }
    assert docs[offset..end] == Page(docs, offset, limit);
    return docs[offset..end];
  }

  /** Two queries for consecutive pages, with the same sort option and nothing written between them: together they
      return what one query for both pages returns, and everything from the offset on if the second has no limit. */
  method ConsecutivePages(service: Service, library: Library, field: string, value: Value, offset: nat, first: nat,
                          second: int, sortField: string)
    returns (a: seq<Document>, b: seq<Document>, both: seq<Document>)
    requires service.Sound()
    requires sortField != "" ==> offset + first + (if second < 0 then 0 else second) <= MAX_INT
    ensures a + b == both
    ensures offset == 0 && second < 0 ==> a + b == AllFound(service, library, field, value, sortField)
  {
    a := FindByField(service, library, field, value, first, offset, sortField);
    b := FindByField(service, library, field, value, second, offset + first, sortField);
    both := FindByField(service, library, field, value,
        if second < 0 then second else first + second, offset, sortField);
    PagesJoin(AllFound(service, library, field, value, sortField), offset, first, second);
  }

  /** While store and index agree, what the index holds under a text is the plain filter over the stored documents,
      and every id found yields its document. */
  lemma QueryIsAFilter(service: Service, field: string, text: string)
    requires service.Valid()
    ensures IdsUnder(service.indexes.indexes, field, text) ==
              Matching(service.indexes.sprint, service.store, field, text)
    ensures var ids := Sorted(Matching(service.indexes.sprint, service.store, field, text));
            && |Survivors(ids, service.store)| == |ids|
            && forall i :: 0 <= i < |ids| ==>
                ids[i] in service.store && Survivors(ids, service.store)[i] == service.store[ids[i]]
  {
    forall id
      ensures id in IdsUnder(service.indexes.indexes, field, text) <==>
              id in Matching(service.indexes.sprint, service.store, field, text)
    {
      assert Has(service.indexes.indexes, field, text, id) <==>
             id in service.store && Indexes(IndexableFields(service.indexes.sprint, service.store[id]), field, text);
    }
    var ids := Sorted(Matching(service.indexes.sprint, service.store, field, text));
    forall i | 0 <= i < |ids|
      ensures ids[i] in service.store
    {
      assert ids[i] in ids;
    }
    AllSurvive(ids, service.store);
  }

  lemma {:induction false} AllSurvive(ids: seq<string>, store: map<string, Document>)
    requires forall i :: 0 <= i < |ids| ==> ids[i] in store
    ensures |Survivors(ids, store)| == |ids|
    ensures forall i :: 0 <= i < |ids| ==> Survivors(ids, store)[i] == store[ids[i]]
    decreases |ids|
  {
    if ids != [] {
      AllSurvive(ids[..|ids| - 1], store);
    }
  }

  /** The sorted documents are the one stable order by the field, whatever algorithm computes it. */
  lemma SortedByFieldIsStable(docs: seq<Document>, field: string, descending: bool, sorted: seq<Document>)
    requires Sortable(docs, field)
    ensures IsStableSort(ByField(field, descending), docs, sorted) <==> sorted == Sort(ByField(field, descending), docs)
  {
    StrictWeakIffSortable(docs, field, descending);
    SortIsStable(ByField(field, descending), docs);
    if IsStableSort(ByField(field, descending), docs, sorted) {
      StableSortIsUnique(ByField(field, descending), docs, sorted);
    }
  }
}
