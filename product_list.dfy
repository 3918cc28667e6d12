/** The product list page of the client: its sort buttons, its "show"
    checkboxes, and the link it fetches the product list from. React state
    (`sortFields`, `sortFieldShow`) is passed in and returned as values; the
    fetch, the rendering and the hooks are not modelled. */
module ProductList {
  import opened JsObject
  import opened QueryString

  /** `sortFields`: per field name, the direction its sort button shows
      (1 ascending, -1 descending, 0 none). */
  type SortFields = Dict<string, int>

  /** `sortFieldShow`: per field name, whether its "show" box is ticked. */
  type ShowFields = Dict<string, bool>

  /** `sortFields[fieldName] || 0`: a field never clicked counts as 0. */
  function CurrentDir(sortFields: SortFields, fieldName: string): int
  {
    match Get(sortFields, fieldName)
    case Some(d) => d
    case None => 0
  }

  /** JavaScript's `%` by a positive divisor: unlike Dafny's, its result takes
      the sign of the dividend. */
  function JsRem(a: int, b: int): int
    requires b > 0
  {
    if a >= 0 then a % b else -((-a) % b)
  }

  /** `((dir + 2) % 3) - 1`: the direction after one click. */
  function NextDir(dir: int): (next: int)
    ensures dir == 0 ==> next == 1
    ensures dir == 1 ==> next == -1
    ensures dir == -1 ==> next == 0
  {
    JsRem(dir + 2, 3) - 1
  }

  /** Every stored direction is -1, 0 or 1. */
  predicate ValidDirs(sortFields: SortFields)
  {
    forall e | e in sortFields :: -1 <= e.1 <= 1
  }

  /** `sortButtonClick`: the clicked field's direction moves on by one step of
      the cycle 0, 1, -1, 0; every other field keeps its entry, and the keys keep
      their order, a first click on a field adding it last. */
  function SortButtonClick(sortFields: SortFields, fieldName: string): (r: SortFields)
    ensures var d := CurrentDir(sortFields, fieldName);
      -1 <= d <= 1 ==> Get(r, fieldName) == Some(if d == 0 then 1 else if d == 1 then -1 else 0)
    ensures forall k | k != fieldName :: Get(r, k) == Get(sortFields, k)
    ensures ValidDirs(sortFields) ==> ValidDirs(r)
    ensures DistinctKeys(sortFields) ==> DistinctKeys(r)
    ensures Keys(r) == if fieldName in Keys(sortFields) then Keys(sortFields) else Keys(sortFields) + [fieldName]
  {
    var next := NextDir(CurrentDir(sortFields, fieldName));
    AssignGet(sortFields, fieldName, next);
    AssignEntries(sortFields, fieldName, next);
    AssignKeys(sortFields, fieldName, next);
    assert ValidDirs(sortFields) ==> -1 <= next <= 1 by {
      if ValidDirs(sortFields) && Get(sortFields, fieldName).Some? {
        assert (fieldName, Get(sortFields, fieldName).value) in sortFields;
      }
    }
    Assign(sortFields, fieldName, next)
  }

  /** Three clicks on the same button restore the state, except that a field
      never clicked before is now recorded with direction 0. */
  lemma ThreeClicksRestore(sortFields: SortFields, fieldName: string)
    requires ValidDirs(sortFields)
    ensures SortButtonClick(SortButtonClick(SortButtonClick(sortFields, fieldName), fieldName), fieldName)
         == if fieldName in Keys(sortFields) then sortFields else sortFields + [(fieldName, 0)]
  {
    var d0 := CurrentDir(sortFields, fieldName);
    if Get(sortFields, fieldName).Some? {
      assert (fieldName, Get(sortFields, fieldName).value) in sortFields;
    }
    var s1 := SortButtonClick(sortFields, fieldName);
    var d1 := CurrentDir(s1, fieldName);
    var s2 := SortButtonClick(s1, fieldName);
    var d2 := CurrentDir(s2, fieldName);
    AssignOverwrite(sortFields, fieldName, NextDir(d0), NextDir(d1));
    AssignOverwrite(sortFields, fieldName, NextDir(d1), NextDir(d2));
    assert NextDir(d2) == d0;
    if fieldName in Keys(sortFields) {
      AssignCurrent(sortFields, fieldName, d0);
    }
  }

  /** `sortShowButtonClick`: the clicked field's box takes the new state; every
      other field keeps its entry, and the keys keep their order, a first click on
      a field adding it last. */
  function SortShowButtonClick(sortFieldShow: ShowFields, fieldName: string, state: bool): (r: ShowFields)
    ensures Get(r, fieldName) == Some(state)
    ensures forall k | k != fieldName :: Get(r, k) == Get(sortFieldShow, k)
    ensures DistinctKeys(sortFieldShow) ==> DistinctKeys(r)
    ensures Keys(r) == if fieldName in Keys(sortFieldShow) then Keys(sortFieldShow) else Keys(sortFieldShow) + [fieldName]
  {
    AssignGet(sortFieldShow, fieldName, state);
    AssignKeys(sortFieldShow, fieldName, state);
    Assign(sortFieldShow, fieldName, state)
  }

  /** The word a direction puts in the query: 1 asks for `asc`, -1 for `desc`. */
  function DirWord(dir: Option<int>): Option<string>
  {
    if dir == Some(1) then Some("asc")
    else if dir == Some(-1) then Some("desc")
    else None
  }

  /** What the client asks of field k: its sort direction when it has one,
      otherwise `show` when its box is ticked, otherwise nothing. */
  function Requested(sortFields: SortFields, sortFieldShow: ShowFields, k: string): Option<string>
  {
    if DirWord(Get(sortFields, k)).Some? then DirWord(Get(sortFields, k))
    else if Get(sortFieldShow, k) == Some(true) then Some("show")
    else None
  }

  /** The two loops of `refreshProducts` that fill `queryObj`: sort directions
      first, then `show` through `||=`, which never overwrites a direction. */
  method BuildQueryObject(sortFields: SortFields, sortFieldShow: ShowFields) returns (queryObj: Dict<string, string>)
    requires DistinctKeys(sortFields) && DistinctKeys(sortFieldShow)
    ensures DistinctKeys(queryObj)
    ensures forall k :: Get(queryObj, k) == Requested(sortFields, sortFieldShow, k)
    ensures forall e | e in queryObj :: e.1 == "asc" || e.1 == "desc" || e.1 == "show"
  {
    queryObj := [];
    var i := 0;
    while i < |sortFields|
      invariant 0 <= i <= |sortFields|
      invariant DistinctKeys(queryObj)
      invariant forall k :: Get(queryObj, k) == DirWord(Get(sortFields[..i], k))
    {
      var (field, dir) := sortFields[i];
      forall k ensures Get(sortFields[..i + 1], k) == if k == field then Some(dir) else Get(sortFields[..i], k) {
        GetPrefix(sortFields, i, k);
      }
      assert Get(sortFields[..i], field) == None by {
        GetPrefix(sortFields, i, field);
        assert field !in Keys(sortFields[..i]) by {
          forall m | 0 <= m < i ensures Keys(sortFields[..i])[m] != field {
            assert sortFields[..i][m] == sortFields[m];
          }
        }
      }
      if dir == 1 {
        AssignGet(queryObj, field, "asc");
        queryObj := Assign(queryObj, field, "asc");
      }
      if dir == -1 {
        AssignGet(queryObj, field, "desc");
        queryObj := Assign(queryObj, field, "desc");
      }
      i := i + 1;
    }
    assert sortFields[..i] == sortFields;

    var j := 0;
    while j < |sortFieldShow|
      invariant 0 <= j <= |sortFieldShow|
      invariant DistinctKeys(queryObj)
      invariant forall k :: Get(queryObj, k) == Requested(sortFields, sortFieldShow[..j], k)
    {
      var (field, show) := sortFieldShow[j];
      forall k ensures Get(sortFieldShow[..j + 1], k) == if k == field then Some(show) else Get(sortFieldShow[..j], k) {
        GetPrefix(sortFieldShow, j, k);
      }
      assert Get(sortFieldShow[..j], field) == None by {
        GetPrefix(sortFieldShow, j, field);
        assert field !in Keys(sortFieldShow[..j]) by {
          forall m | 0 <= m < j ensures Keys(sortFieldShow[..j])[m] != field {
            assert sortFieldShow[..j][m] == sortFieldShow[m];
          }
        }
      }
      if show {
        var current := Get(queryObj, field);
        if current == None || current == Some("") {
          AssignGet(queryObj, field, "show");
          queryObj := Assign(queryObj, field, "show");
        }
      }
      j := j + 1;
    }
    assert sortFieldShow[..j] == sortFieldShow;

    forall e | e in queryObj ensures e.1 == "asc" || e.1 == "desc" || e.1 == "show" {
      var m :| 0 <= m < |queryObj| && queryObj[m] == e;
      GetAt(queryObj, m);
    }
  }

  /** The address of the server's product list. */
  const LinkPrefix: string := "http://localhost:5000/products"

  /** `e.join("=")` for one entry of `queryObj`. */
  function Pair(e: (string, string)): string
  {
    e.0 + "=" + e.1
  }

  /** `Object.entries(queryObj).map((e) => e.join("="))` */
  function Pairs(queryObj: Dict<string, string>): seq<string>
  {
    seq(|queryObj|, i requires 0 <= i < |queryObj| => Pair(queryObj[i]))
  }

  /** The link `refreshProducts` fetches: the prefix, followed by `?` and the
      pairs joined with `&` when there is at least one pair. */
  function LinkFor(queryObj: Dict<string, string>): string
  {
    var query := Pairs(queryObj);
    LinkPrefix + (if |query| > 0 then "?" + Join(query, '&') else "")
  }

  /** Reading a link back into its `field=value` entries; None when the link is
      not of the shape LinkFor produces. */
  function ParseLink(link: string): Option<Dict<string, string>>
  {
    if link == LinkPrefix then Some([])
    else if |link| > |LinkPrefix| && link[..|LinkPrefix| + 1] == LinkPrefix + "?" then
      ParsePairs(Split(link[|LinkPrefix| + 1..], '&'))
    else None
  }

  function ParsePairs(items: seq<string>): Option<Dict<string, string>>
  {
    if items == [] then Some([])
    else
      var kv := Split(items[0], '=');
      match ParsePairs(items[1..])
      case Some(rest) => if |kv| == 2 then Some([(kv[0], kv[1])] + rest) else None
      case None => None
  }

  /** No name or value contains a character the link uses as a delimiter. */
  predicate PlainEntries(queryObj: Dict<string, string>)
  {
    forall e | e in queryObj :: '&' !in e.0 + e.1 && '=' !in e.0 + e.1
  }

  /** ParsePairs recovers the entries from their pairs. */
  lemma {:induction false} ParsePairsOfPairs(queryObj: Dict<string, string>)
    requires PlainEntries(queryObj)
    ensures ParsePairs(Pairs(queryObj)) == Some(queryObj)
  {
    if queryObj != [] {
      var e := queryObj[0];
      assert '=' !in e.0 + e.1 && '&' !in e.0 + e.1;
      assert '=' !in e.0 by { assert forall c | c in e.0 :: c in e.0 + e.1; }
      assert '=' !in e.1 by { assert forall c | c in e.1 :: c in e.0 + e.1; }
      SplitAtFirst(e.0, e.1, '=');
      SplitWithoutSeparator(e.1, '=');
      assert Pairs(queryObj)[1..] == Pairs(queryObj[1..]);
      ParsePairsOfPairs(queryObj[1..]);
      assert queryObj == [e] + queryObj[1..];
    }
  }

  /** The link with no entries is the bare prefix, and any link LinkFor builds
      reads back as exactly the entries it was built from, in their order. */
  lemma LinkRoundTrip(queryObj: Dict<string, string>)
    requires PlainEntries(queryObj)
    ensures queryObj == [] <==> LinkFor(queryObj) == LinkPrefix
    ensures ParseLink(LinkFor(queryObj)) == Some(queryObj)
  {
    var query := Pairs(queryObj);
    if |query| > 0 {
      var link := LinkFor(queryObj);
      forall i | 0 <= i < |query| ensures '&' !in query[i] {
        var e := queryObj[i];
        assert '&' !in e.0 + e.1;
        assert query[i] == e.0 + "=" + e.1;
        assert forall c | c in query[i] :: c in e.0 + e.1 || c == '=';
      }
      SplitJoin(query, '&');
      assert link[..|LinkPrefix| + 1] == LinkPrefix + "?";
      assert link[|LinkPrefix| + 1..] == Join(query, '&');
      ParsePairsOfPairs(queryObj);
    }
  }
}
