/** The `productFields` table of the server's product routes, and the
    JavaScript values that the routes read out of a request's query string
    or JSON body. */
module ProductFields {
  import opened JsObject

  /** The five declared product fields. */
  datatype Field = Name | Price | Description | Amount | Unit

  /** `Object.keys(productFields)`: the fields in declaration order. */
  const Fields: seq<Field> := [Name, Price, Description, Amount, Unit]

  /** The property name of a field. */
  function Key(f: Field): string
  {
    match f
    case Name => "name"
    case Price => "price"
    case Description => "description"
    case Amount => "amount"
    case Unit => "unit"
  }

  /** `productFields[field]`: the declared primitive type, as `typeof` spells it. */
  function TypeName(f: Field): (t: string)
    ensures t == "string" || t == "number"
  {
    match f
    case Name => "string"
    case Price => "number"
    case Description => "string"
    case Amount => "number"
    case Unit => "string"
  }

  /** The position of a field in declaration order. */
  function Rank(f: Field): (n: nat)
    ensures n < |Fields| && Fields[n] == f
    ensures forall i | 0 <= i < |Fields| && Fields[i] == f :: i == n
  {
    match f
    case Name => 0
    case Price => 1
    case Description => 2
    case Amount => 3
    case Unit => 4
  }

  /** Distinct fields have distinct property names, so reading `req.query[Key(f)]`
      for one field never sees another field's value. */
  lemma KeyInjective(f: Field, g: Field)
    ensures Key(f) == Key(g) <==> f == g
  {
    if f != g {
      assert Key(f)[0] != Key(g)[0] || |Key(f)| != |Key(g)|;
    }
  }

  /** A property list whose keys strictly follow the declaration order of the fields. */
  predicate InDeclarationOrder<V>(d: Dict<Field, V>)
  {
    forall i, j | 0 <= i < j < |d| :: Rank(d[i].0) < Rank(d[j].0)
  }

  /** A JavaScript value as it arrives in `req.query` or a parsed JSON `req.body`
      (Composite stands for any array or object; numbers are never NaN here). */
  datatype JsValue = Undefined | Null | Bool(b: bool) | Num(x: real) | Str(s: string) | Composite

  /** The `typeof` operator. */
  function TypeOf(v: JsValue): string
  {
    match v
    case Undefined => "undefined"
    case Null => "object"
    case Bool(_) => "boolean"
    case Num(_) => "number"
    case Str(_) => "string"
    case Composite => "object"
  }

  /** `req.query` or `req.body`: named request properties. */
  type Request = map<string, JsValue>

  /** `req.query[field]` or `req.body[field]`; a missing property reads as undefined. */
  function Read(req: Request, f: Field): JsValue
  {
    if Key(f) in req then req[Key(f)] else Undefined
  }

  /** The entries a loop over the first n declared fields records, in visiting
      order, when field f contributes pick(f) (None: no entry). */
  function Gather<V>(pick: Field -> Option<V>, n: nat): Dict<Field, V>
    requires n <= |Fields|
  {
    if n == 0 then []
    else
      var init := Gather(pick, n - 1);
      var f := Fields[n - 1];
      match pick(f)
      case Some(v) => init + [(f, v)]
      case None => init
  }

  /** Every recorded entry is one of the first n fields with the value it
      contributes, and the keys follow declaration order. */
  lemma {:induction false} GatherEntries<V>(pick: Field -> Option<V>, n: nat)
    requires n <= |Fields|
    ensures var c := Gather(pick, n);
      && InDeclarationOrder(c)
      && (forall i | 0 <= i < |c| :: Rank(c[i].0) < n)
      && (forall i | 0 <= i < |c| :: pick(c[i].0) == Some(c[i].1))
  {
    if n > 0 {
      GatherEntries(pick, n - 1);
      assert Rank(Fields[n - 1]) == n - 1;
    }
  }

  /** Field f has an entry exactly when it is among the first n fields and
      contributes one. */
  lemma {:induction false} GatherGet<V>(pick: Field -> Option<V>, n: nat, f: Field)
    requires n <= |Fields|
    ensures Get(Gather(pick, n), f) == if Rank(f) < n then pick(f) else None
  {
    if n > 0 {
      GatherGet(pick, n - 1, f);
      var init := Gather(pick, n - 1);
      var g := Fields[n - 1];
      assert Rank(g) == n - 1;
      match pick(g)
      case Some(v) =>
        GetAppend(init, [(g, v)], f);
      case None =>
        if Rank(f) == n - 1 {
          assert f == g;
        }
    }
  }

  /** The field a loop visits next has no entry yet, so assigning it appends. */
  lemma GatherNext<V>(pick: Field -> Option<V>, i: nat)
    requires i < |Fields|
    ensures Fields[i] !in Keys(Gather(pick, i))
  {
    GatherEntries(pick, i);
    assert Rank(Fields[i]) == i;
  }

  /** The entries depend on nothing but what each field contributes. */
  lemma {:induction false} GatherCongruent<V>(pick1: Field -> Option<V>, pick2: Field -> Option<V>, n: nat)
    requires n <= |Fields|
    requires forall f :: pick1(f) == pick2(f)
    ensures Gather(pick1, n) == Gather(pick2, n)
  {
    if n > 0 {
      GatherCongruent(pick1, pick2, n - 1);
    }
  }
}
