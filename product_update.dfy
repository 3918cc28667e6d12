/** The two write paths of the product routes that shape data before handing
    it to the database: the field check of PUT /products/:id and the document
    built by POST /product/add. The database calls themselves (the name
    uniqueness lookup, insertOne, updateOne) are not modelled. */
module ProductUpdate {
  import opened JsObject
  import opened ProductFields

  /** The error text recorded for a field whose body value has the wrong type. */
  function ErrorText(f: Field): string
  {
    "not a " + TypeName(f)
  }

  /** What the PUT handler puts into `updateFields` for field f: the body value
      when its `typeof` is the declared type. */
  function UpdateValue(body: Request, f: Field): Option<JsValue>
  {
    if TypeOf(Read(body, f)) == TypeName(f) then Some(Read(body, f)) else None
  }

  /** What the PUT handler puts into `errors` for field f: the error text when the
      value's `typeof` is neither the declared type nor "undefined". */
  function ErrorValue(body: Request, f: Field): Option<string>
  {
    if TypeOf(Read(body, f)) == TypeName(f) then None
    else if TypeOf(Read(body, f)) != "undefined" then Some(ErrorText(f))
    else None
  }

  /** The PUT handler's `forEach` over `productFields`: a body value whose `typeof`
      is the declared type goes into `updateFields`, any other present value puts
      `not a <type>` into `errors`, and an undefined value is skipped. The
      handler issues the update exactly when `noErrors` is still true, and
      otherwise answers with `errors`. */
  method ValidateUpdate(body: Request) returns (updateFields: Dict<Field, JsValue>, errors: Dict<Field, string>, noErrors: bool)
    ensures forall f :: Get(updateFields, f) == (if TypeOf(Read(body, f)) == TypeName(f) then Some(Read(body, f)) else None)
    ensures forall f :: Get(errors, f) == (if Read(body, f) != Undefined && TypeOf(Read(body, f)) != TypeName(f) then Some(ErrorText(f)) else None)
    ensures forall f :: Get(updateFields, f).None? || Get(errors, f).None?
    ensures forall f :: Read(body, f) == Undefined ==> Get(updateFields, f).None? && Get(errors, f).None?
    ensures InDeclarationOrder(updateFields) && InDeclarationOrder(errors)
    ensures noErrors <==> errors == []
  {
    ghost var accept := f => UpdateValue(body, f);
    ghost var reject := f => ErrorValue(body, f);
    updateFields := [];
    errors := [];
    noErrors := true;

    var i := 0;
    while i < |Fields|
      invariant 0 <= i <= |Fields|
      invariant updateFields == Gather(accept, i)
      invariant errors == Gather(reject, i)
      invariant noErrors <==> errors == []
    {
      var field := Fields[i];
      var bodyValue := Read(body, field);
      GatherNext(accept, i);
      GatherNext(reject, i);
      if TypeOf(bodyValue) == TypeName(field) {
        updateFields := Assign(updateFields, field, bodyValue);
      } else if TypeOf(bodyValue) != "undefined" {
        errors := Assign(errors, field, ErrorText(field));
        noErrors := false;
      }
      i := i + 1;
    }

    GatherEntries(accept, |Fields|);
    GatherEntries(reject, |Fields|);
    forall f ensures Get(updateFields, f) == UpdateValue(body, f) && Get(errors, f) == ErrorValue(body, f) {
      GatherGet(accept, |Fields|, f);
      GatherGet(reject, |Fields|, f);
    }
  }

  /** The document POST /product/add inserts: one property per declared field,
      in declaration order, holding the body's value for it (undefined when the
      body lacks it). */
  function AddedProduct(body: Request): Dict<Field, JsValue>
  {
    seq(|Fields|, i requires 0 <= i < |Fields| => (Fields[i], Read(body, Fields[i])))
  }

  /** The inserted document has exactly the five declared keys, each carrying the
      body's value; no other body property gets in. */
  lemma AddedProductShape(body: Request)
    ensures Keys(AddedProduct(body)) == Fields
    ensures forall f :: Get(AddedProduct(body), f) == Some(Read(body, f))
    ensures forall key | key in body && forall f :: Key(f) != key ::
      AddedProduct(body) == AddedProduct(body - {key})
  {
    var doc := AddedProduct(body);
    assert DistinctKeys(doc) by {
      forall i, j | 0 <= i < j < |doc| ensures doc[i].0 != doc[j].0 {
        assert Rank(doc[i].0) == i && Rank(doc[j].0) == j;
      }
    }
    forall f ensures Get(doc, f) == Some(Read(body, f)) {
      GetAt(doc, Rank(f));
    }
  }
}
