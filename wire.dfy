/** The two sides of the HTTP boundary put together: the response a Flask route sends
    is the reply the browser's fetch function reads. Query strings are taken to decode
    back to what encodeURIComponent encoded, so the route sees the argument the client
    passed. */
module Wire {
  import opened Types
  import Api
  import Client
  import SparqlService

  /** The reply fetch sees for a route's response, with the JSON body read back as
      the type the client expects. */
  function SearchReply(resp: Api.Response): Client.Reply<seq<SearchResult>>
  {
    Client.Reply(resp.status, if resp.body.Results? then Some(resp.body.items) else None)
  }

  function DetailsReply(resp: Api.Response): Client.Reply<DistroDetails>
  {
    Client.Reply(resp.status, if resp.body.Details? then Some(resp.body.details) else None)
  }

  function GraphReply(resp: Api.Response): Client.Reply<GraphData>
  {
    Client.Reply(resp.status, if resp.body.Graph? then Some(resp.body.graph) else None)
  }

  /** Python's len never exceeds the JavaScript length, so a term the route would pass
      to search_distros is never held back by the browser; whatever the service
      returns reaches the search box, and a failure or an empty stripped term shows as
      no results. */
  lemma SearchEndToEnd(base: string, encode: string -> string, term: string, outcome: Settled<seq<SearchResult>>)
    ensures var h := Api.Search(map["term" := term], outcome);
            var c := Client.SearchDistros(base, encode, term, SearchReply(h.response));
            && (h.call.Some? ==> c.url.Some?)
            && (h.call.Some? && outcome.Returned? ==> c.value == outcome.value)
            && (h.call.None? || outcome.Threw? ==> c.value == [])
  {
    Api.StripIsTrimmedSlice(term);
  }

  /** A uri that is not blank reaches get_distro_details stripped, and its result is
      what the browser gets; a blank one, or a failure, reads as null. */
  lemma DetailsEndToEnd(base: string, encode: string -> string, uri: string, outcome: Settled<Option<DistroDetails>>)
    ensures var h := Api.DistroDetailsRoute(map["uri" := uri], outcome);
            var c := Client.GetDistroDetails(base, encode, uri, DetailsReply(h.response));
            && (Api.Strip(uri) != "" ==> h.call == Some(Api.Strip(uri)))
            && c.value == if Api.Strip(uri) != "" && outcome.Returned? then outcome.value else None
  {
  }

  /** The browser's optional center arrives as the route's center: a missing or empty
      one, or one of only whitespace, gives the uncentered query. */
  lemma GraphEndToEnd(base: string, encode: string -> string, center: Option<string>, outcome: Settled<GraphData>)
    ensures var args := if Truthy(center) then map["centerUri" := center.value] else map[];
            var h := Api.GenealogyGraphRoute(args, outcome);
            var c := Client.GetGenealogyGraph(base, encode, center, GraphReply(h.response));
            && h.call == Some(if Truthy(center) && Api.Strip(center.value) != "" then Some(Api.Strip(center.value)) else None)
            && c.value == if outcome.Returned? then outcome.value else EmptyGraph
  {
    var args: map<string, string> := if Truthy(center) then map["centerUri" := center.value] else map[];
    var sent := if Truthy(center) then center.value else "";
    assert Api.Arg(args, "centerUri") == sent;
    var h := Api.GenealogyGraphRoute(args, outcome);
    assert h.call == Some(if Api.Strip(sent) != "" then Some(Api.Strip(sent)) else None);
    var reply := GraphReply(h.response);
    if outcome.Returned? {
      assert reply == Client.Reply(200, Some(outcome.value));
    } else {
      assert reply == Client.Reply(500, None);
    }
  }

  /** With get_genealogy_graph behind the route, the graph the browser receives has
      unique node ids, importances in 1..3 and links between its own nodes, whatever
      Wikidata answered. */
  lemma ReceivedGraphWellFormed(base: string, encode: string -> string, center: Option<string>,
                                answer: SparqlService.QueryOutcome)
    ensures var args := if Truthy(center) then map["centerUri" := center.value] else map[];
            var sent := if Truthy(center) && Api.Strip(center.value) != "" then Some(Api.Strip(center.value)) else None;
            var h := Api.GenealogyGraphRoute(args, Returned(SparqlService.GraphOf(sent, answer)));
            var g := Client.GetGenealogyGraph(base, encode, center, GraphReply(h.response)).value;
            && g == SparqlService.GraphOf(sent, answer)
            && (forall i, j :: 0 <= i < j < |g.nodes| ==> g.nodes[i].id != g.nodes[j].id)
            && (forall n :: n in g.nodes ==> n.val in {1, 2, 3})
            && (forall l :: l in g.links ==> HasNode(g, l.source) && HasNode(g, l.target))
  {
    var sent := if Truthy(center) && Api.Strip(center.value) != "" then Some(Api.Strip(center.value)) else None;
    GraphEndToEnd(base, encode, center, Returned(SparqlService.GraphOf(sent, answer)));
    SparqlService.GraphOfShape(sent, answer);
  }
}
