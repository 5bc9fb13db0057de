/** Documents and the texts under which their fields are indexed (internal/document/index/index.go). */
module Documents {

  /** A decoded JSON value. Objects and arrays are never indexed or compared, so their contents do not matter. */
  datatype Value = Null | Bool(b: bool) | Number(n: real) | Text(s: string) | Nested(raw: string)

  type Document = map<string, Value>

  /** indexableFieldValues, with fmt.Sprint left open. */
  function IndexableFields(sprint: Value -> string, doc: Document): map<string, string> {
    map f | f in doc && f != "_id" && !doc[f].Nested? :: sprint(doc[f])
  }

  predicate Indexes(fields: map<string, string>, field: string, text: string) {
    field in fields && fields[field] == text
  }

  type Index = map<string, map<string, set<string>>>

  predicate Has(index: Index, field: string, text: string, id: string) {
    field in index && text in index[field] && id in index[field][text]
  }

  function IdsUnder(index: Index, field: string, text: string): (ids: set<string>)
    ensures forall id :: id in ids <==> Has(index, field, text, id)
  {
    if field in index && text in index[field] then index[field][text] else {}
  }

  /** No empty inner map and no empty id set. */
  ghost predicate Tidy(index: Index) {
    forall f :: f in index ==> index[f] != map[] && forall t :: t in index[f] ==> index[f][t] != {}
  }
}
