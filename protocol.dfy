/** The query protocol between the product list page and the GET /products
    handler: what the server's option builder makes of a query object the
    client builds. */
module Protocol {
  import opened JsObject
  import opened ProductFields
  import opened ListQuery
  import opened ProductList

  /** The `req.query` the server sees for a link carrying the entries of
      queryObj: each entry becomes a string property. */
  function ServerQuery(queryObj: Dict<string, string>): Request
  {
    map k | k in Keys(queryObj) :: Str(Get(queryObj, k).value)
  }

  /** The request the server parses out of a link: the `field=value` entries of
      its query string; None when the link is not one the client builds. */
  function LinkRequest(link: string): Option<Request>
  {
    match ParseLink(link)
    case Some(entries) => Some(ServerQuery(entries))
    case None => None
  }

  /** The link the client fetches carries exactly its query object to the
      server, provided no name or value holds a delimiter. */
  lemma LinkCarriesQuery(queryObj: Dict<string, string>)
    requires PlainEntries(queryObj)
    ensures LinkRequest(LinkFor(queryObj)) == Some(ServerQuery(queryObj))
  {
    LinkRoundTrip(queryObj);
  }

  /** The server gives a field the sort directive its button shows on the
      client, and a `show` directive only when its box is ticked and it is not
      sorted. */
  lemma ServerFollowsClient(sortFields: SortFields, sortFieldShow: ShowFields, queryObj: Dict<string, string>, f: Field)
    requires Get(queryObj, Key(f)) == Requested(sortFields, sortFieldShow, Key(f))
    ensures var d := DirectiveOf(ServerQuery(queryObj), f);
      var dir := CurrentDir(sortFields, Key(f));
      && SortValue(d) == (if dir == 1 || dir == -1 then Some(dir) else None)
      && ProjectionValue(d) ==
           (if dir != 1 && dir != -1 && Get(sortFieldShow, Key(f)) == Some(true) then Some(1) else None)
  {
    var query := ServerQuery(queryObj);
    var k := Key(f);
    if Get(queryObj, k).Some? {
      assert k in Keys(queryObj);
      assert Read(query, f) == Str(Get(queryObj, k).value);
    } else {
      assert k !in query;
    }
  }

  /** A query object made only of `asc`, `desc` and `show` never asks the server
      to hide a field, so the projection stage it leads to only includes fields:
      the server never receives a mixed inclusion/exclusion projection from the
      client. */
  lemma ClientProjectionOnlyIncludes(queryObj: Dict<string, string>)
    requires forall e | e in queryObj :: e.1 == "asc" || e.1 == "desc" || e.1 == "show"
    ensures forall f :: DirectiveOf(ServerQuery(queryObj), f) != Hide
    ensures var p := ListPipeline(ServerQuery(queryObj));
      AnyProjection(ServerQuery(queryObj)) ==> |p| > 0 && p[0].Project? && forall e | e in p[0].spec :: e.1 == 1
  {
    var query := ServerQuery(queryObj);
    forall f ensures DirectiveOf(query, f) != Hide {
      var k := Key(f);
      if Get(queryObj, k).Some? {
        assert (k, Get(queryObj, k).value) in queryObj;
        assert k in Keys(queryObj);
        assert Read(query, f) == Str(Get(queryObj, k).value);
      } else {
        assert k !in query;
      }
    }
    if AnyProjection(query) {
      var p := ListPipeline(query);
      StageKeyOrder(query);
      PipelineShape(query);
      forall e | e in p[0].spec ensures e.1 == 1 {
        var m :| 0 <= m < |p[0].spec| && p[0].spec[m] == e;
        GetAt(p[0].spec, m);
        ProjectionStage(query, e.0);
      }
    }
  }
}
