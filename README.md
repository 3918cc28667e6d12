# Product list query protocol: a verified Dafny model

This project models the logic of the shop's product routes and product list page:

- The GET `/products` option builder. It reads the five declared product fields from the query string. `hide`/`show` become projection entries (0/1) and `asc`/`desc` become sort entries (1/-1). When both kinds occur, every sort key is forced to 1 in the projection. The result is a pipeline of at most two stages, the projection first.
- The PUT `/products/:id` type check. A body value whose `typeof` is the declared type goes into the update. A present value of any other type records `not a <type>`. An undefined value is skipped.
- The document built by POST `/product/add`.
- The client side of the same protocol. The sort button cycles a field's direction 0 → 1 → -1 → 0. The show checkbox sets a flag. `refreshProducts` turns that state into `field=value` pairs and a link.

JavaScript objects keep their own properties in insertion order. Assigning an existing property keeps its place; a new one goes last. The key order of the pipeline depends on this, so objects are modelled as ordered property lists (`JsObject.Dict`) with `Get` (read, `None` for `undefined`) and `Assign` (property assignment).

Modules:

- `JsObject`: ordered dictionaries.
- `ProductFields`: the `productFields` table, JavaScript values and `typeof`, and `Gather`, the generic "loop over the declared fields" recursion.
- `ListQuery`: the GET option builder. The method `BuildListOptions` mirrors the handler's loops. It is proved equal to the stage-by-stage description `ListPipeline`, about which the lemmas are stated.
- `ProductUpdate`: the PUT validator and the inserted document.
- `QueryString`: join and split on a separator.
- `ProductList`: the client's click handlers, query object and link.
- `Protocol`: what the server's builder makes of a query object the client builds.

The report aggregation pipeline is not part of this model: no such code appears in `bd_mongo/server/routes/products.js` or `bd_mongo/server/routes/record.js`.

## Model

| member | source | states |
|---|---|---|
| `JsObject.Get` | bd_mongo/server/routes/products.js:19 | Reading a property gives `undefined` exactly when the key is absent, and otherwise a value stored under that key |
| `JsObject.Assign` | bd_mongo/server/routes/products.js:29 | Assigning a property that is absent appends it after all others, so the object grows by exactly one |
| `JsObject.AssignGet` | bd_mongo/client/src/components/ProductList.js:46 | After `d[k] = v`, reading `k` gives `v`, every other key reads as before, and no key is duplicated |
| `JsObject.AssignEntries` | bd_mongo/client/src/components/ProductList.js:46 | After an assignment, every entry is the new one or was already there |
| `JsObject.AssignKeys` | bd_mongo/client/src/components/ProductList.js:46 | Assigning an existing property leaves the keys and their order unchanged; a new key is added last |
| `JsObject.AssignOverwrite` | bd_mongo/client/src/components/ProductList.js:46 | Two assignments to one key leave only the second value, at the same position |
| `JsObject.AssignCurrent` | bd_mongo/client/src/components/ProductList.js:46 | Assigning a key the value it already holds leaves the object unchanged |
| `JsObject.GetAppend` | bd_mongo/server/routes/products.js:53-55 | A lookup in a concatenation finds the key in the first part before the second |
| `JsObject.GetAt` | bd_mongo/server/routes/products.js:88-90 | With distinct keys, the entry at position i is exactly what a lookup of its key returns |
| `JsObject.GetPrefix` | bd_mongo/client/src/components/ProductList.js:17 | Extending a prefix of an object by one entry changes only the lookup of that entry's key |
| `ProductFields.TypeName` | bd_mongo/server/routes/products.js:6-12 | Every declared field type is `string` or `number` |
| `ProductFields.Rank` | bd_mongo/server/routes/products.js:6-12 | Each field has exactly one position in declaration order |
| `ProductFields.KeyInjective` | bd_mongo/server/routes/products.js:6-12 | Distinct fields have distinct property names, so no field reads another's value |
| `ProductFields.GatherEntries` | bd_mongo/server/routes/products.js:26-47 | A loop over the first n fields records only those fields, each with the value it contributes, in declaration order |
| `ProductFields.GatherGet` | bd_mongo/server/routes/products.js:26-47 | After n fields, a field has an entry iff it is among them and contributes one, and the entry holds that value |
| `ProductFields.GatherNext` | bd_mongo/server/routes/products.js:29 | The field visited next has no entry yet, so assigning it appends |
| `ProductFields.GatherCongruent` | bd_mongo/server/routes/products.js:17-20 | The recorded entries depend on nothing but what each field contributes |
| `ListQuery.CollectEntries` | bd_mongo/server/routes/products.js:26-47 | Entries of `projectOptions`/`sortOptions` are visited fields carrying the matching directive with its value (hide 0, show 1, asc 1, desc -1), in declaration order |
| `ListQuery.CollectGet` | bd_mongo/server/routes/products.js:27-47 | After n fields, a field has a projection (sort) entry iff it is among them and its value is exactly hide/show (asc/desc); other values change nothing |
| `ListQuery.CollectAll` | bd_mongo/server/routes/products.js:23-47 | Over all five fields, the entries are in declaration order, and the list is empty iff no field carries a directive of that kind (`projectEmpty`/`sortEmpty`) |
| `ListQuery.DirectivesDisjoint` | bd_mongo/server/routes/products.js:26-47 | No field is in both the initial projection and the sort |
| `ListQuery.GetForced` | bd_mongo/server/routes/products.js:53-55 | The forced entries name exactly the sort keys, each with value 1 |
| `ListQuery.PipelineShape` | bd_mongo/server/routes/products.js:50-58 | The pipeline has one stage per kind of directive present (so at most two); a projection stage exists iff some field had hide/show, a sort stage iff some field had asc/desc; the projection comes first |
| `ListQuery.ProjectionStage` | bd_mongo/server/routes/products.js:52-57 | When some field has hide/show, the first stage is the projection; in it a field's own hide/show gives 0/1, a sorted field is forced to 1, and a field with neither is absent |
| `ListQuery.SortStage` | bd_mongo/server/routes/products.js:38-46 | In the sort stage asc gives 1, desc gives -1, and every other field is absent |
| `ListQuery.ForcedProjectionOrder` | bd_mongo/server/routes/products.js:52-56 | Directives followed by forced sort keys repeat no field; every forced key comes after every directive, and each group follows declaration order |
| `ListQuery.StageKeyOrder` | bd_mongo/server/routes/products.js:17-58 | No stage names a field twice; sort keys follow declaration order, not request order; in the projection every forced sort key comes after every projection directive, and each group follows declaration order |
| `ListQuery.CollectCongruent` | bd_mongo/server/routes/products.js:17-20 | Queries giving every field the same directive record the same entries |
| `ListQuery.SameDirectivesSamePipeline` | bd_mongo/server/routes/products.js:17-20 | Queries giving every field the same directive yield the same pipeline |
| `ListQuery.UnknownKeyIgnored` | bd_mongo/server/routes/products.js:17-20 | Adding or changing a query key that is not one of the five field names leaves the pipeline unchanged |
| `ListQuery.UnrecognisedValueIgnored` | bd_mongo/server/routes/products.js:27-47 | A value other than exactly hide/show/asc/desc gives the same pipeline as no value |
| `ListQuery.ForcingStep` | bd_mongo/server/routes/products.js:53-55 | Each key visited by the `for...in` loop is not yet in the projection, so it is appended with value 1 |
| `ListQuery.BuildListOptions` | bd_mongo/server/routes/products.js:17-58 | The handler's loops and pushes build exactly `ListPipeline(query)`, a pipeline of at most two stages |
| `ListQuery.ExampleSortAndHide` | bd_mongo/server/routes/products.js:17-58 | `{name: asc, price: hide}` gives `[{$project: {price: 0, name: 1}}, {$sort: {name: 1}}]` |
| `ListQuery.ExampleSortAndShow` | bd_mongo/server/routes/products.js:17-58 | `{amount: desc, unit: show}` gives `[{$project: {unit: 1, amount: 1}}, {$sort: {amount: -1}}]` |
| `ProductUpdate.ValidateUpdate` | bd_mongo/server/routes/products.js:107-133 | A field is in `updateFields` iff its `typeof` is the declared type; in `errors` (`not a <type>`) iff present with another type; never in both; undefined in neither; both in declaration order; `noErrors` (which issues the update) iff `errors` is empty |
| `ProductUpdate.AddedProductShape` | bd_mongo/server/routes/products.js:88-90 | The inserted document has exactly the five declared keys in declaration order, each holding the body's value (possibly undefined); other body properties do not affect it |
| `ProductList.NextDir` | bd_mongo/client/src/components/ProductList.js:46 | `((dir + 2) % 3) - 1` with JavaScript's `%` maps 0 to 1, 1 to -1 and -1 to 0 |
| `ProductList.SortButtonClick` | bd_mongo/client/src/components/ProductList.js:44-47 | The clicked field steps along 0 → 1 → -1 → 0 (an unset field counts as 0); all other entries are unchanged; directions stay in {-1, 0, 1}; the keys keep their order, a first click adding the field last (this order reaches the link through `Object.entries`) |
| `ProductList.ThreeClicksRestore` | bd_mongo/client/src/components/ProductList.js:44-47 | Three clicks on one button restore the state exactly, except that a field never clicked is left recorded with direction 0 |
| `ProductList.SortShowButtonClick` | bd_mongo/client/src/components/ProductList.js:49-51 | The clicked field's flag takes the new state; all other entries are unchanged; the keys keep their order, a first click adding the field last |
| `ProductList.BuildQueryObject` | bd_mongo/client/src/components/ProductList.js:16-23 | A key maps to `asc` iff its direction is 1, `desc` iff -1; otherwise to `show` iff its flag is true; `||=` never overwrites a direction; direction 0 contributes nothing; values are only asc/desc/show, never hide |
| `ProductList.ParsePairsOfPairs` | bd_mongo/client/src/components/ProductList.js:25 | Splitting each `field=value` pair on `=` recovers the entries |
| `ProductList.LinkRoundTrip` | bd_mongo/client/src/components/ProductList.js:25-27 | The link is the bare prefix iff there are no entries; otherwise prefix + `?` + pairs joined by `&`, which reads back as exactly the entries in their order |
| `QueryString.SplitWithoutSeparator` | bd_mongo/client/src/components/ProductList.js:27 | A string without the separator splits into itself alone |
| `QueryString.SplitAtFirst` | bd_mongo/client/src/components/ProductList.js:27 | Splitting stops at the first separator |
| `QueryString.SplitJoin` | bd_mongo/client/src/components/ProductList.js:27 | Splitting undoes `join` when no piece contains the separator |
| `Protocol.ServerFollowsClient` | bd_mongo/client/src/components/ProductList.js:17-23 | The directive the server reads for a field sorts it in the direction the client's button shows, and is `show` (projection value 1) only when its show flag is set and it is not sorted; a sorted field can still be forced into the projection |
| `Protocol.LinkCarriesQuery` | bd_mongo/client/src/components/ProductList.js:25-27 | The request the server parses from the fetched link holds exactly the client's query object as string properties |
| `Protocol.ClientProjectionOnlyIncludes` | bd_mongo/client/src/components/ProductList.js:17-23 | A client query never asks to hide a field, so any projection stage the server builds from it contains only 1s |

## Left out

- Database calls are not modelled: `aggregate`, the `findOne` name-uniqueness check and its promise chain, `insertOne`, `updateOne`, `deleteMany` and `ObjectId` parsing. They are foreign I/O. Whether MongoDB accepts a mixed include/exclude projection is not modelled either.
- Express routing, query-string and JSON body parsing, and response serialisation are not modelled. The server's input is given as the parsed `req.query`/`req.body` map.
- React hooks, `fetch`, rendering and `console.log` on the client are not modelled. The state values `sortFields` and `sortFieldShow` are parameters and results.
- `record.js`, `conn.js`, `SortButton.js` and the Flask/Neo4j application are not part of this model.
- JavaScript numbers are modelled as mathematical numbers: a real in `JsValue.Num` and an integer for a sort direction. NaN, infinities and floating-point rounding are not modelled.
- JavaScript orders integer-like property names before all others. None of the names involved is integer-like, so property order is modelled as plain insertion order.
- `ProductList.ParseLink` is a reference reader used as the inverse of `LinkFor`. It is not Express's parser and does not model percent-encoding. `LinkRoundTrip` requires names and values without `&` or `=`.
- `ProductList.BuildQueryObject` states each key's value but not the order of the keys. That order is the order of `sortFields` for keys with a direction, followed by the show-only keys in the order of `sortFieldShow`.
- `ProductList.BuildQueryObject` requires the state objects to have distinct keys. A JavaScript object always does; the list model does not enforce it by itself.
- `ProductList.NextDir` states the cycle only for directions -1, 0 and 1, the only values the page ever stores (see `SortButtonClick`).
