/** The inverted index object (internal/document/index/index.go). */
module DocumentIndex {
  import opened Documents
  import StringOrder

  // ---- sorted ids ------------------------------------------------------------------------

  /** Strictly ascending strings. */
  ghost predicate Ascending(ids: seq<string>) {
    forall i, j :: 0 <= i < j < |ids| ==> StringOrder.Less(ids[i], ids[j])
  }

  ghost predicate SortingOf(ids: seq<string>, members: set<string>) {
    Ascending(ids) && forall x :: x in ids <==> x in members
  }

  /** The members of a set in ascending order. */
  ghost function Sorted(members: set<string>): (ids: seq<string>)
    ensures SortingOf(ids, members)
  {
    SortingExists(members);
    var ids :| SortingOf(ids, members);
    ids
  }

  lemma {:induction false} SortingExists(members: set<string>)
    ensures exists ids :: SortingOf(ids, members)
    decreases |members|
  {
    if members == {} {
      assert SortingOf([], members);
    } else {
      var least := LeastExists(members);
      SortingExists(members - {least});
      var rest :| SortingOf(rest, members - {least});
      forall x | x in rest
        ensures StringOrder.Less(least, x)
      {
      }
      LeastFirst(least, rest);
      assert SortingOf([least] + rest, members);
    }
  }

  lemma LeastFirst(least: string, rest: seq<string>)
    requires Ascending(rest) && forall x :: x in rest ==> StringOrder.Less(least, x)
    ensures Ascending([least] + rest)
  {
  }

  lemma NothingSorted()
    ensures Sorted({}) == []
  {
    AscendingIsUnique(Sorted({}), []);
  }

  lemma {:induction false} LeastExists(members: set<string>) returns (least: string)
    requires members != {}
    ensures least in members && forall x :: x in members && x != least ==> StringOrder.Less(least, x)
    decreases |members|
  {
    var y :| y in members;
    var rest := members - {y};
    least := y;
    if rest != {} {
      var z := LeastExists(rest);
      StringOrder.Total(y, z);
      if StringOrder.Less(z, y) {
        least := z;
      } else {
        Lower(members, z, y);
      }
    }
  }

  lemma {:induction false} AscendingLength(ids: seq<string>, members: set<string>)
    requires SortingOf(ids, members)
    ensures |ids| == |members|
  {
    if ids == [] {
      assert members == {};
    } else {
      FirstIsLeast(ids);
      forall x
        ensures x in ids[1..] <==> x in members - {ids[0]}
      {
        assert x in ids <==> x == ids[0] || x in ids[1..];
      }
      AscendingLength(ids[1..], members - {ids[0]});
      assert ids[0] in members;
    }
  }

  /** As many ids as members. */
  lemma SortedLength(members: set<string>)
    ensures |Sorted(members)| == |members|
  {
    AscendingLength(Sorted(members), members);
  }

  /** sort.Strings over the members of a set. */
  method SortStrings(members: set<string>) returns (sorted: seq<string>)
    ensures sorted == Sorted(members)
  {
    sorted := [];
    var rest := members;
    while rest != {}
      invariant rest <= members
      invariant forall x :: x in sorted <==> x in members - rest
      invariant forall x, y :: x in sorted && y in rest ==> StringOrder.Less(x, y)
      invariant Ascending(sorted)
      decreases rest
    {
      var least := Least(rest);
      rest := rest - {least};
      sorted := sorted + [least];
    }
    AscendingIsUnique(sorted, Sorted(members));
  }

  method Least(members: set<string>) returns (least: string)
    requires members != {}
    ensures least in members && forall x :: x in members && x != least ==> StringOrder.Less(least, x)
  {
    least :| least in members;
    var rest := members - {least};
    while rest != {}
      invariant rest <= members && least in members && least !in rest
      invariant forall x :: x in members - rest && x != least ==> StringOrder.Less(least, x)
      decreases rest
    {
      var y :| y in rest;
      rest := rest - {y};
      StringOrder.Total(least, y);
      if StringOrder.Less(y, least) {
        Lower(members - rest, least, y);
        least := y;
      }
    }
  }

  lemma Lower(members: set<string>, least: string, y: string)
    requires StringOrder.Less(y, least)
    requires forall x :: x in members && x != least && x != y ==> StringOrder.Less(least, x)
    ensures forall x :: x in members && x != y ==> StringOrder.Less(y, x)
  {
    forall x | x in members && x != y
      ensures StringOrder.Less(y, x)
    {
      if x != least {
        StringOrder.Transitive(y, least, x);
      }
    }
  }

  /** Ascending strings are determined by their members, so an ascending answer has only one order. */
  lemma {:induction false} AscendingIsUnique(a: seq<string>, b: seq<string>)
    requires Ascending(a) && Ascending(b) && forall x :: x in a <==> x in b
    ensures a == b
  {
    EmptyTogether(a, b);
    if a != [] {
      assert a[0] in b && b[0] in a;
      if a[0] != b[0] {
        StringOrder.Asymmetric(a[0], b[0]);
      }
      SameTail(a, b);
      AscendingIsUnique(a[1..], b[1..]);
      assert a == [a[0]] + a[1..] && b == [b[0]] + b[1..];
    }
  }

  lemma EmptyTogether(a: seq<string>, b: seq<string>)
    requires forall x :: x in a <==> x in b
    ensures a != [] <==> b != []
  {
    if b != [] {
      assert b[0] in a;
    }
    if a != [] {
      assert a[0] in b;
    }
  }

  lemma SameTail(a: seq<string>, b: seq<string>)
    requires Ascending(a) && Ascending(b) && a != [] && b != [] && a[0] == b[0]
    requires forall x :: x in a <==> x in b
    ensures forall x :: x in a[1..] <==> x in b[1..]
  {
    FirstIsLeast(a);
    FirstIsLeast(b);
    forall x
      ensures x in a[1..] <==> x in b[1..]
    {
      assert x in a <==> x == a[0] || x in a[1..];
      assert x in b <==> x == b[0] || x in b[1..];
    }
  }

  lemma FirstIsLeast(s: seq<string>)
    requires Ascending(s) && s != []
    ensures s[0] !in s[1..]
  {
    StringOrder.Irreflexive(s[0]);
  }

  lemma OnlyMember(s: set<string>, x: string)
    requires |s - {x}| == 0
    ensures forall y :: y in s ==> y == x
  {
    forall y | y in s
      ensures y == x
    {
      assert y == x || y in s - {x};
    }
  }

  // ---- the index ---------------------------------------------------------------------------

  class IndexManager {
    const sprint: Value -> string
    var indexes: Index

    constructor (sprint: Value -> string)
      ensures this.sprint == sprint && indexes == map[]
    {
      this.sprint := sprint;
      indexes := map[];
    }

    /** addIDLocked: exactly one entry more. */
    method AddID(field: string, value: string, id: string)
      requires Tidy(indexes)
      modifies `indexes
      ensures Tidy(indexes)
      ensures forall f, t, i :: Has(indexes, f, t, i) <==> Has(old(indexes), f, t, i) || (f, t, i) == (field, value, id)
    {
      var fieldIndex := if field in indexes then indexes[field] else map[];
      var idSet := if value in fieldIndex then fieldIndex[value] else {};
      indexes := indexes[field := fieldIndex[value := idSet + {id}]];
    }

    /** removeIDLocked: exactly that entry less, and maps that have become empty are deleted. */
    method RemoveID(field: string, value: string, id: string)
      requires Tidy(indexes)
      modifies `indexes
      ensures Tidy(indexes)
      ensures forall f, t, i :: Has(indexes, f, t, i) <==> Has(old(indexes), f, t, i) && (f, t, i) != (field, value, id)
    {
      if field !in indexes {
        return;
      }
      var fieldIndex := indexes[field];
      if value !in fieldIndex {
        return;
      }
      var idSet := fieldIndex[value] - {id};
      if |idSet| > 0 {
        indexes := indexes[field := fieldIndex[value := idSet]];
        return;
      }
      OnlyMember(fieldIndex[value], id);
      DropText(field, value);
    }

    /** Deletes a text whose id set has become empty, and the field with it if that was its last text. */
    method DropText(field: string, value: string)
      requires Tidy(indexes) && field in indexes && value in indexes[field]
      modifies `indexes
      ensures Tidy(indexes)
      ensures forall f, t, i :: Has(indexes, f, t, i) <==> Has(old(indexes), f, t, i) && (f, t) != (field, value)
    {
      var fieldIndex := indexes[field] - {value};
      if |fieldIndex| > 0 {
        indexes := indexes[field := fieldIndex];
        return;
      }
      assert fieldIndex == map[];
      indexes := indexes - {field};
    }

    method IndexDocument(id: string, doc: Document)
      requires Tidy(indexes)
      modifies `indexes
      ensures Tidy(indexes)
      ensures forall f, t, i :: Has(indexes, f, t, i) <==>
                Has(old(indexes), f, t, i) || (i == id && Indexes(IndexableFields(sprint, doc), f, t))
    {
      AddAll(id, IndexableFields(sprint, doc));
    }

    method RemoveDocument(id: string, doc: Document)
      requires Tidy(indexes)
      modifies `indexes
      ensures Tidy(indexes)
      ensures forall f, t, i :: Has(indexes, f, t, i) <==>
                Has(old(indexes), f, t, i) && !(i == id && Indexes(IndexableFields(sprint, doc), f, t))
    {
      RemoveAll(id, IndexableFields(sprint, doc));
    }

    method UpdateDocument(id: string, oldDoc: Document, newDoc: Document)
      requires Tidy(indexes)
      modifies `indexes
      ensures Tidy(indexes)
      ensures forall f, t, i :: Has(indexes, f, t, i) <==>
                || (Has(old(indexes), f, t, i) && !(i == id && Indexes(IndexableFields(sprint, oldDoc), f, t)))
                || (i == id && Indexes(IndexableFields(sprint, newDoc), f, t))
    {
      RemoveAll(id, IndexableFields(sprint, oldDoc));
      AddAll(id, IndexableFields(sprint, newDoc));
    }

    /** Adds the fields one by one, in no particular order. */
    method AddAll(id: string, fields: map<string, string>)
      requires Tidy(indexes)
      modifies `indexes
      ensures Tidy(indexes)
      ensures forall f, t, i :: Has(indexes, f, t, i) <==>
                Has(old(indexes), f, t, i) || (i == id && Indexes(fields, f, t))
    {
      var todo := fields.Keys;
      while todo != {}
        invariant todo <= fields.Keys && Tidy(indexes)
        invariant forall f, t, i :: Has(indexes, f, t, i) <==>
                    Has(old(indexes), f, t, i) || (i == id && f !in todo && Indexes(fields, f, t))
        decreases todo
      {
        var field :| field in todo;
        todo := todo - {field};
        AddID(field, fields[field], id);
      }
    }

    method RemoveAll(id: string, fields: map<string, string>)
      requires Tidy(indexes)
      modifies `indexes
      ensures Tidy(indexes)
      ensures forall f, t, i :: Has(indexes, f, t, i) <==>
                Has(old(indexes), f, t, i) && !(i == id && Indexes(fields, f, t))
    {
      var todo := fields.Keys;
      while todo != {}
        invariant todo <= fields.Keys && Tidy(indexes)
        invariant forall f, t, i :: Has(indexes, f, t, i) <==>
                    Has(old(indexes), f, t, i) && !(i == id && f !in todo && Indexes(fields, f, t))
        decreases todo
      {
        var field :| field in todo;
        todo := todo - {field};
        RemoveID(field, fields[field], id);
      }
    }

    /** Lookup: the ids under the value's text, ascending. */
    method Lookup(field: string, value: Value) returns (ids: seq<string>)
      ensures ids == Sorted(IdsUnder(indexes, field, sprint(value)))
    {
      var key := sprint(value);
      NothingSorted();
      if field !in indexes {
        return [];
      }
      if key !in indexes[field] || |indexes[field][key]| == 0 {
        return [];
      }
      ids := SortStrings(indexes[field][key]);
    }

    /** Fields: exactly the fields under which some document is indexed. */
    method Fields() returns (fields: seq<string>)
      requires Tidy(indexes)
      ensures Ascending(fields)
      ensures forall f :: f in fields <==> exists t, i :: Has(indexes, f, t, i)
    {
      fields := SortStrings(indexes.Keys);
      forall f | f in indexes
        ensures exists t, i :: Has(indexes, f, t, i)
      {
        var t :| t in indexes[f];
        var i :| i in indexes[f][t];
        assert Has(indexes, f, t, i);
      }
    }
  }
}
