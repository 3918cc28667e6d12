/** The option builder of the GET /products handler: it turns the request's
    query string into an aggregation pipeline of at most two stages, a
    projection followed by a sort. Executing the pipeline is the database's
    business and is not modelled. */
module ListQuery {
  import opened JsObject
  import opened ProductFields

  /** What one field's query value asks for. */
  datatype Directive = Hide | Show | Asc | Desc | Ignored

  /** The handler's `switch (option)`: strict equality with the four words;
      anything else, including a missing or non-string value, is ignored. */
  function Classify(option: JsValue): Directive
  {
    if option == Str("hide") then Hide
    else if option == Str("show") then Show
    else if option == Str("asc") then Asc
    else if option == Str("desc") then Desc
    else Ignored
  }

  /** The directive the query gives field f. */
  function DirectiveOf(query: Request, f: Field): Directive
  {
    Classify(Read(query, f))
  }

  /** The value a directive puts in `projectOptions` (0 excludes, 1 includes). */
  function ProjectionValue(d: Directive): Option<int>
  {
    match d
    case Hide => Some(0)
    case Show => Some(1)
    case _ => None
  }

  /** The value a directive puts in `sortOptions` (1 ascending, -1 descending). */
  function SortValue(d: Directive): Option<int>
  {
    match d
    case Asc => Some(1)
    case Desc => Some(-1)
    case _ => None
  }

  function EntryValue(d: Directive, forSort: bool): Option<int>
  {
    if forSort then SortValue(d) else ProjectionValue(d)
  }

  /** The entries that the first n declared fields, visited in order,
      contribute to `projectOptions` (forSort false) or `sortOptions` (forSort true). */
  function Collect(query: Request, n: nat, forSort: bool): Dict<Field, int>
    requires n <= |Fields|
  {
    Gather(f => EntryValue(DirectiveOf(query, f), forSort), n)
  }

  /** The projection entries that force every sort key into the result. */
  function Forced(sortOptions: Dict<Field, int>): Dict<Field, int>
  {
    seq(|sortOptions|, i requires 0 <= i < |sortOptions| => (sortOptions[i].0, 1))
  }

  /** A pipeline stage: `{ $project: spec }` or `{ $sort: spec }`. */
  datatype Stage = Project(spec: Dict<Field, int>) | Sort(spec: Dict<Field, int>)

  /** The pipeline the handler hands to `aggregate`, described stage by stage:
      the projection directives in declaration order followed, when there is
      also a sort, by every sort key set to 1; then the sort directives in
      declaration order. An empty kind contributes no stage. */
  function ListPipeline(query: Request): seq<Stage>
  {
    var project := Collect(query, |Fields|, false);
    var sort := Collect(query, |Fields|, true);
    var projectStage :=
      if project == [] then []
      else if sort == [] then [Project(project)]
      else [Project(project + Forced(sort))];
    projectStage + (if sort == [] then [] else [Sort(sort)])
  }

  /** Some field carries `hide` or `show`. */
  predicate AnyProjection(query: Request)
  {
    exists f: Field :: ProjectionValue(DirectiveOf(query, f)).Some?
  }

  /** Some field carries `asc` or `desc`. */
  predicate AnySort(query: Request)
  {
    exists f: Field :: SortValue(DirectiveOf(query, f)).Some?
  }

  /** After the loop has visited the first n fields, every recorded entry is one
      of those fields with the value its directive gives, in declaration order. */
  lemma CollectEntries(query: Request, n: nat, forSort: bool)
    requires n <= |Fields|
    ensures var c := Collect(query, n, forSort);
      && InDeclarationOrder(c)
      && (forall i | 0 <= i < |c| :: Rank(c[i].0) < n)
      && (forall i | 0 <= i < |c| :: EntryValue(DirectiveOf(query, c[i].0), forSort) == Some(c[i].1))
  {
    GatherEntries(f => EntryValue(DirectiveOf(query, f), forSort), n);
  }

  /** After the loop has visited the first n fields, field f has an entry exactly
      when it is one of them and carries a directive of the kind asked for. */
  lemma CollectGet(query: Request, n: nat, forSort: bool, f: Field)
    requires n <= |Fields|
    ensures Get(Collect(query, n, forSort), f) ==
      if Rank(f) < n then EntryValue(DirectiveOf(query, f), forSort) else None
  {
    GatherGet(f => EntryValue(DirectiveOf(query, f), forSort), n, f);
  }

  /** The entries of the whole field list: one per field carrying a directive of
      the kind asked for, in declaration order; the list is empty exactly when no
      field carries such a directive. */
  lemma CollectAll(query: Request, forSort: bool)
    ensures var c := Collect(query, |Fields|, forSort);
      && InDeclarationOrder(c)
      && (forall f :: Get(c, f) == EntryValue(DirectiveOf(query, f), forSort))
      && (c == [] <==> if forSort then !AnySort(query) else !AnyProjection(query))
  {
    CollectEntries(query, |Fields|, forSort);
    forall f ensures Get(Collect(query, |Fields|, forSort), f) == EntryValue(DirectiveOf(query, f), forSort) {
      CollectGet(query, |Fields|, forSort, f);
    }
    var c := Collect(query, |Fields|, forSort);
    if c != [] {
      assert Get(c, c[0].0).Some?;
    }
  }

  /** A field never sits in both the projection directives and the sort directives. */
  lemma DirectivesDisjoint(query: Request, f: Field)
    ensures Get(Collect(query, |Fields|, false), f).None? || Get(Collect(query, |Fields|, true), f).None?
  {
    CollectGet(query, |Fields|, false, f);
    CollectGet(query, |Fields|, true, f);
  }

  /** Every key of `Forced(s)` is a key of s, with value 1. */
  lemma {:induction false} GetForced(s: Dict<Field, int>, f: Field)
    ensures Keys(Forced(s)) == Keys(s)
    ensures Get(Forced(s), f) == if Get(s, f).Some? then Some(1) else None
  {
    if s != [] {
      assert Forced(s) == [(s[0].0, 1)] + Forced(s[1..]);
      assert s == [s[0]] + s[1..];
      GetForced(s[1..], f);
      GetAppend([(s[0].0, 1)], Forced(s[1..]), f);
      GetAppend([s[0]], s[1..], f);
    }
  }

  /** The pipeline has one stage per kind of directive present, the projection first. */
  lemma PipelineShape(query: Request)
    ensures var p := ListPipeline(query);
      && |p| == (if AnyProjection(query) then 1 else 0) + (if AnySort(query) then 1 else 0)
      && (AnyProjection(query) ==> p[0].Project?)
      && (AnySort(query) ==> p[|p| - 1].Sort?)
  {
    CollectAll(query, false);
    CollectAll(query, true);
  }

  /** The projection stage: a field's own `hide`/`show` gives 0/1, a sorted field is
      forced to 1, and a field with no directive is absent. */
  lemma ProjectionStage(query: Request, f: Field)
    requires AnyProjection(query)
    ensures var p := ListPipeline(query);
      && |p| > 0
      && p[0].Project?
      && Get(p[0].spec, f) ==
           match DirectiveOf(query, f)
           case Hide => Some(0)
           case Show => Some(1)
           case Asc => Some(1)
           case Desc => Some(1)
           case Ignored => None
  {
    CollectAll(query, false);
    CollectAll(query, true);
    var project := Collect(query, |Fields|, false);
    var sort := Collect(query, |Fields|, true);
    GetAppend(project, Forced(sort), f);
    GetForced(sort, f);
  }

  /** The sort stage: `asc` gives 1, `desc` gives -1, every other field is absent. */
  lemma SortStage(query: Request, f: Field)
    requires AnySort(query)
    ensures var p := ListPipeline(query);
      && |p| > 0
      && p[|p| - 1].Sort?
      && Get(p[|p| - 1].spec, f) == SortValue(DirectiveOf(query, f))
  {
    PipelineShape(query);
    CollectAll(query, true);
  }

  /** Key order of a projection stage: the forced sort keys come after all the
      fields' own projection directives, and within each group the keys follow
      declaration order. */
  predicate ProjectionOrder(query: Request, spec: Dict<Field, int>)
  {
    forall i, j | 0 <= i < j < |spec| ::
      && (SortValue(DirectiveOf(query, spec[i].0)).Some? ==> SortValue(DirectiveOf(query, spec[j].0)).Some?)
      && (|| Rank(spec[i].0) < Rank(spec[j].0)
          || (ProjectionValue(DirectiveOf(query, spec[i].0)).Some? && SortValue(DirectiveOf(query, spec[j].0)).Some?))
  }

  /** The directives followed by the forced sort keys name no field twice, and
      every forced key comes after every directive. */
  lemma ForcedProjectionOrder(query: Request)
    ensures var spec := Collect(query, |Fields|, false) + Forced(Collect(query, |Fields|, true));
      DistinctKeys(spec) && ProjectionOrder(query, spec)
  {
    var project := Collect(query, |Fields|, false);
    var sort := Collect(query, |Fields|, true);
    CollectEntries(query, |Fields|, false);
    CollectEntries(query, |Fields|, true);
    var spec := project + Forced(sort);
    forall i, j | 0 <= i < j < |spec|
      ensures spec[i].0 != spec[j].0
      ensures SortValue(DirectiveOf(query, spec[i].0)).Some? ==> SortValue(DirectiveOf(query, spec[j].0)).Some?
      ensures || Rank(spec[i].0) < Rank(spec[j].0)
              || (ProjectionValue(DirectiveOf(query, spec[i].0)).Some? && SortValue(DirectiveOf(query, spec[j].0)).Some?)
    {
      if j < |project| {
        assert spec[i] == project[i] && spec[j] == project[j];
      } else if i >= |project| {
        assert spec[i].0 == sort[i - |project|].0 && spec[j].0 == sort[j - |project|].0;
      } else {
        assert spec[i] == project[i];
        assert spec[j].0 == sort[j - |project|].0;
      }
    }
  }

  /** Key order: the sort stage follows declaration order; the projection stage
      follows it too, except that forced sort keys come after the fields' own
      projection directives. No stage names a field twice. */
  lemma StageKeyOrder(query: Request)
    ensures var p := ListPipeline(query);
      && (forall k | 0 <= k < |p| :: DistinctKeys(p[k].spec))
      && (AnySort(query) ==> |p| > 0 && InDeclarationOrder(p[|p| - 1].spec))
      && (AnyProjection(query) ==> |p| > 0 && ProjectionOrder(query, p[0].spec))
  {
    var project := Collect(query, |Fields|, false);
    var sort := Collect(query, |Fields|, true);
    CollectEntries(query, |Fields|, false);
    CollectEntries(query, |Fields|, true);
    PipelineShape(query);
    ForcedProjectionOrder(query);
    assert DistinctKeys(sort);
    assert DistinctKeys(project);
    assert ProjectionOrder(query, project);
  }

  /** Only the five declared properties of the query are ever inspected, and only
      through the directive they spell: queries that agree on every field's
      directive record the same entries. */
  lemma CollectCongruent(q1: Request, q2: Request, n: nat, forSort: bool)
    requires n <= |Fields|
    requires forall f :: DirectiveOf(q1, f) == DirectiveOf(q2, f)
    ensures Collect(q1, n, forSort) == Collect(q2, n, forSort)
  {
    GatherCongruent(f => EntryValue(DirectiveOf(q1, f), forSort), f => EntryValue(DirectiveOf(q2, f), forSort), n);
  }

  /** Queries that agree on every field's directive yield the same pipeline. */
  lemma SameDirectivesSamePipeline(q1: Request, q2: Request)
    requires forall f :: DirectiveOf(q1, f) == DirectiveOf(q2, f)
    ensures ListPipeline(q1) == ListPipeline(q2)
  {
    CollectCongruent(q1, q2, |Fields|, false);
    CollectCongruent(q1, q2, |Fields|, true);
  }

  /** A query property that is not one of the five field names has no effect. */
  lemma UnknownKeyIgnored(query: Request, key: string, value: JsValue)
    requires forall f :: Key(f) != key
    ensures ListPipeline(query[key := value]) == ListPipeline(query)
  {
    SameDirectivesSamePipeline(query[key := value], query);
  }

  /** A value other than exactly `hide`, `show`, `asc` or `desc` has the same
      effect as no value at all. */
  lemma UnrecognisedValueIgnored(query: Request, key: string, value: JsValue)
    requires Classify(value) == Ignored
    ensures ListPipeline(query[key := value]) == ListPipeline(query - {key})
  {
    SameDirectivesSamePipeline(query[key := value], query - {key});
  }

  /** One turn of the `for...in` loop over `sortOptions`: the key it visits is not
      yet in the projection, so the assignment appends it. */
  lemma ForcingStep(query: Request, j: nat)
    requires j < |Collect(query, |Fields|, true)|
    ensures var directives := Collect(query, |Fields|, false);
      var sort := Collect(query, |Fields|, true);
      && sort[j].0 !in Keys(directives + Forced(sort[..j]))
      && Forced(sort[..j + 1]) == Forced(sort[..j]) + [(sort[j].0, 1)]
  {
    var directives := Collect(query, |Fields|, false);
    var sort := Collect(query, |Fields|, true);
    CollectEntries(query, |Fields|, false);
    CollectEntries(query, |Fields|, true);
    var field := sort[j].0;
    var spec := directives + Forced(sort[..j]);
    forall m | 0 <= m < |spec| ensures Keys(spec)[m] != field {
      if m < |directives| {
        assert spec[m] == directives[m];
      } else {
        assert spec[m].0 == sort[m - |directives|].0;
      }
    }
  }

  /** The handler itself: the `forEach`/`switch` loop over the declared fields,
      the `for...in` loop forcing sort keys into the projection, and the two
      `options.push` calls. */
  method BuildListOptions(query: Request) returns (options: seq<Stage>)
    ensures options == ListPipeline(query)
    ensures |options| <= 2
  {
    var projectOptions: Dict<Field, int> := [];
    var sortOptions: Dict<Field, int> := [];
    var projectEmpty := true;
    var sortEmpty := true;

    var i := 0;
    while i < |Fields|
      invariant 0 <= i <= |Fields|
      invariant projectOptions == Collect(query, i, false)
      invariant sortOptions == Collect(query, i, true)
      invariant projectEmpty == (projectOptions == [])
      invariant sortEmpty == (sortOptions == [])
    {
      var field := Fields[i];
      var option := Read(query, field);
      GatherNext(f => EntryValue(DirectiveOf(query, f), false), i);
      GatherNext(f => EntryValue(DirectiveOf(query, f), true), i);
      if option == Str("hide") {
        projectOptions := Assign(projectOptions, field, 0);
        projectEmpty := false;
      } else if option == Str("show") {
        projectOptions := Assign(projectOptions, field, 1);
        projectEmpty := false;
      } else if option == Str("asc") {
        sortOptions := Assign(sortOptions, field, 1);
        sortEmpty := false;
      } else if option == Str("desc") {
        sortOptions := Assign(sortOptions, field, -1);
        sortEmpty := false;
      }
      i := i + 1;
    }

    options := [];
    if !projectEmpty && !sortEmpty {
      ghost var directives := projectOptions;
      var j := 0;
      while j < |sortOptions|
        invariant 0 <= j <= |sortOptions|
        invariant projectOptions == directives + Forced(sortOptions[..j])
      {
        var field := sortOptions[j].0;
        ForcingStep(query, j);
        projectOptions := Assign(projectOptions, field, 1);
        j := j + 1;
      }
      assert sortOptions[..j] == sortOptions;
    }
    if !projectEmpty {
      options := options + [Project(projectOptions)];
    }
    if !sortEmpty {
      options := options + [Sort(sortOptions)];
    }
  }

  /** `{ name: "asc", price: "hide" }` gives `[{ $project: { price: 0, name: 1 } }, { $sort: { name: 1 } }]`. */
  lemma ExampleSortAndHide()
    ensures ListPipeline(map["name" := Str("asc"), "price" := Str("hide")])
         == [Project([(Price, 0), (Name, 1)]), Sort([(Name, 1)])]
  {
    var q := map["name" := Str("asc"), "price" := Str("hide")];
    assert DirectiveOf(q, Name) == Asc && DirectiveOf(q, Price) == Hide;
    assert DirectiveOf(q, Description) == Ignored by { assert Key(Description) !in q; }
    assert DirectiveOf(q, Amount) == Ignored by { assert Key(Amount) !in q; }
    assert DirectiveOf(q, Unit) == Ignored by { assert Key(Unit) !in q; }
    assert Collect(q, 1, false) == [] && Collect(q, 1, true) == [(Name, 1)];
    assert Collect(q, 2, false) == [(Price, 0)] && Collect(q, 2, true) == [(Name, 1)];
    assert Collect(q, 3, false) == [(Price, 0)] && Collect(q, 3, true) == [(Name, 1)];
    assert Collect(q, 4, false) == [(Price, 0)] && Collect(q, 4, true) == [(Name, 1)];
    assert Collect(q, 5, false) == [(Price, 0)] && Collect(q, 5, true) == [(Name, 1)];
    assert Forced([(Name, 1)]) == [(Name, 1)];
    assert [(Price, 0)] + [(Name, 1)] == [(Price, 0), (Name, 1)];
  }

  /** `{ amount: "desc", unit: "show" }` gives `[{ $project: { unit: 1, amount: 1 } }, { $sort: { amount: -1 } }]`. */
  lemma ExampleSortAndShow()
    ensures ListPipeline(map["amount" := Str("desc"), "unit" := Str("show")])
         == [Project([(Unit, 1), (Amount, 1)]), Sort([(Amount, -1)])]
  {
    var q := map["amount" := Str("desc"), "unit" := Str("show")];
    assert DirectiveOf(q, Amount) == Desc && DirectiveOf(q, Unit) == Show;
    assert DirectiveOf(q, Name) == Ignored by { assert Key(Name) !in q; }
    assert DirectiveOf(q, Price) == Ignored by { assert Key(Price) !in q; }
    assert DirectiveOf(q, Description) == Ignored by { assert Key(Description) !in q; }
    assert Collect(q, 3, false) == [] && Collect(q, 3, true) == [];
    assert Collect(q, 4, false) == [] && Collect(q, 4, true) == [(Amount, -1)];
    assert Collect(q, 5, false) == [(Unit, 1)] && Collect(q, 5, true) == [(Amount, -1)];
    assert Forced([(Amount, -1)]) == [(Amount, 1)];
    assert [(Unit, 1)] + [(Amount, 1)] == [(Unit, 1), (Amount, 1)];
  }
}
