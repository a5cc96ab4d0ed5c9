/** The three Flask routes of the backend: each reads one query argument, strips it,
    validates it, calls the Wikidata service and turns the outcome into a JSON body and
    an HTTP status (backend/app.py). */
module Api {
  import opened Types
  import SparqlService

  /** Python's str.isspace for a single character. */
  predicate IsSpace(c: char)
  {
    c in {' ', '\t', '\n', '\r', '\U{000B}', '\U{000C}', '\U{001C}', '\U{001D}', '\U{001E}', '\U{001F}',
          '\U{0085}', '\U{00A0}', '\U{1680}', '\U{2028}', '\U{2029}', '\U{202F}', '\U{205F}', '\U{3000}'}
    || ('\U{2000}' <= c <= '\U{200A}')
  }

  predicate AllSpace(s: string)
  {
    forall k :: 0 <= k < |s| ==> IsSpace(s[k])
  }

  /** Drops leading whitespace. */
  function StripLeft(s: string): (r: string)
    ensures |r| <= |s| && r == s[|s| - |r|..]
    ensures AllSpace(s[..|s| - |r|])
    ensures r != [] ==> !IsSpace(r[0])
  {
    if s != [] && IsSpace(s[0]) then StripLeft(s[1..]) else s
  }

  /** Drops trailing whitespace. */
  function StripRight(s: string): (r: string)
    ensures |r| <= |s| && r == s[..|r|]
    ensures AllSpace(s[|r|..])
    ensures r != [] ==> !IsSpace(r[|r| - 1])
  {
    if s != [] && IsSpace(s[|s| - 1]) then StripRight(s[..|s| - 1]) else s
  }

  /** Python's str.strip() with no argument: no longer than the input, and neither
      starting nor ending with whitespace. */
  function Strip(s: string): (r: string)
    ensures |r| <= |s|
    ensures r != [] ==> !IsSpace(r[0]) && !IsSpace(r[|r| - 1])
  {
    StripRight(StripLeft(s))
  }

  /** The stripped text is a slice of the input that neither starts nor ends with
      whitespace, and everything cut off on either side is whitespace. */
  lemma StripIsTrimmedSlice(s: string)
    ensures var r := Strip(s);
            && (r != [] ==> !IsSpace(r[0]) && !IsSpace(r[|r| - 1]))
            && exists i, j :: 0 <= i <= j <= |s| && r == s[i..j] && AllSpace(s[..i]) && AllSpace(s[j..])
  {
    var l := StripLeft(s);
    var r := StripRight(l);
    var i := |s| - |l|;
    var j := i + |r|;
    assert r == s[i..j];
    assert s[j..] == l[|r|..];
  }

  /** Whitespace added on either side does not change the stripped text. */
  lemma {:induction false} StripIgnoresPadding(pre: string, s: string, post: string)
    requires AllSpace(pre) && AllSpace(post)
    ensures Strip(pre + s + post) == Strip(s)
  {
    var padded := pre + s + post;
    assert padded == pre + (s + post);
    StripLeftSpaces(pre, s + post);
    assert StripLeft(padded) == StripLeft(s + post);
    if AllSpace(s) {
      assert AllSpace(s + post) by {
        forall k | 0 <= k < |s + post|
          ensures IsSpace((s + post)[k])
        {
          if k < |s| { assert (s + post)[k] == s[k]; } else { assert (s + post)[k] == post[k - |s|]; }
        }
      }
      AllSpaceStripsLeft(s + post);
      AllSpaceStripsLeft(s);
    } else {
      StripLeftKeepsTail(s, post);
      StripRightSpaces(StripLeft(s), post);
    }
  }

  lemma AllSpaceStripsLeft(s: string)
    requires AllSpace(s)
    ensures StripLeft(s) == []
  {
  }

  lemma {:induction false} StripLeftSpaces(ws: string, s: string)
    requires AllSpace(ws)
    ensures StripLeft(ws + s) == StripLeft(s)
  {
    if ws != [] {
      assert (ws + s)[1..] == ws[1..] + s;
      StripLeftSpaces(ws[1..], s);
    } else {
      assert ws + s == s;
    }
  }

  lemma {:induction false} StripLeftKeepsTail(s: string, t: string)
    requires !AllSpace(s)
    ensures StripLeft(s + t) == StripLeft(s) + t
  {
    if IsSpace(s[0]) {
      assert (s + t)[1..] == s[1..] + t;
      StripLeftKeepsTail(s[1..], t);
    }
  }

  lemma {:induction false} StripRightSpaces(s: string, ws: string)
    requires AllSpace(ws)
    ensures StripRight(s + ws) == StripRight(s)
  {
    if ws != [] {
      assert (s + ws)[..|s + ws| - 1] == s + ws[..|ws| - 1];
      StripRightSpaces(s, ws[..|ws| - 1]);
    } else {
      assert s + ws == s;
    }
  }

  /** Stripping twice strips nothing more. */
  lemma StripIdempotent(s: string)
    ensures Strip(Strip(s)) == Strip(s)
  {
    var r := Strip(s);
    if r != [] {
      assert !IsSpace(r[0]) && !IsSpace(r[|r| - 1]);
    }
  }

  /** The JSON bodies the routes send. */
  datatype Body =
    | Results(items: seq<SearchResult>)
    | Details(details: DistroDetails)
    | Graph(graph: GraphData)
    | Error(message: string)

  datatype Response = Response(body: Body, status: int)

  /** What a route did: the argument it passed to its service (None when it answered
      without calling it) and the response it sent. */
  datatype Handled<+A> = Handled(call: Option<A>, response: Response)

  /** request.args.get(key, ''). */
  function Arg(args: map<string, string>, key: string): string
  {
    if key in args then args[key] else ""
  }

  /** GET /api/search. `outcome` is how the call to search_distros ended, if the route
      makes that call. */
  function Search(args: map<string, string>, outcome: Settled<seq<SearchResult>>): (h: Handled<string>)
    ensures var term := Strip(Arg(args, "term"));
            && (h.call.None? <==> |term| < 2)
            && (h.call.Some? ==> h.call.value == term)
            && (h.call.None? ==> h.response == Response(Results([]), 200))
            && (h.call.Some? && outcome.Returned? ==> h.response == Response(Results(outcome.value), 200))
            && (h.response.status == 500 <==> h.call.Some? && outcome.Threw?)
  {
    var term := Strip(Arg(args, "term"));
    if term == "" || |term| < 2 then Handled(None, Response(Results([]), 200))
    else
      match outcome
      case Returned(items) => Handled(Some(term), Response(Results(items), 200))
      case Threw => Handled(Some(term), Response(Error("Search failed"), 500))
  }

  /** GET /api/distro-details. A details dict is never empty, so any record is truthy. */
  function DistroDetailsRoute(args: map<string, string>, outcome: Settled<Option<DistroDetails>>): (h: Handled<string>)
    ensures var uri := Strip(Arg(args, "uri"));
            && (h.call.None? <==> uri == "")
            && (h.call.Some? ==> h.call.value == uri)
            && (h.response.status == 400 <==> uri == "")
            && (h.response.status == 400 ==> h.response.body == Error("URI required"))
            && (h.response.status == 200 <==> h.call.Some? && outcome.Returned? && outcome.value.Some?)
            && (h.response.status == 200 ==> h.response.body == Details(outcome.value.value))
            && (h.response.status == 404 <==> h.call.Some? && outcome == Returned(None))
            && (h.response.status == 500 <==> h.call.Some? && outcome.Threw?)
  {
    var uri := Strip(Arg(args, "uri"));
    if uri == "" then Handled(None, Response(Error("URI required"), 400))
    else
      match outcome
      case Returned(Some(d)) => Handled(Some(uri), Response(Details(d), 200))
      case Returned(None) => Handled(Some(uri), Response(Error("Not found"), 404))
      case Threw => Handled(Some(uri), Response(Error("Failed"), 500))
  }

  /** GET /api/genealogy-graph. A blank or whitespace-only centerUri means no center. */
  function GenealogyGraphRoute(args: map<string, string>, outcome: Settled<GraphData>): (h: Handled<Option<string>>)
    ensures var center := Strip(Arg(args, "centerUri"));
            && h.call.Some?
            && (h.call.value.None? <==> center == "")
            && (h.call.value.Some? ==> h.call.value.value == center)
            && (outcome.Returned? ==> h.response == Response(Graph(outcome.value), 200))
            && (outcome.Threw? ==> h.response == Response(Error("Failed"), 500))
  {
    var stripped := Strip(Arg(args, "centerUri"));
    var center := if stripped == "" then None else Some(stripped);
    match outcome
    case Returned(g) => Handled(Some(center), Response(Graph(g), 200))
    case Threw => Handled(Some(center), Response(Error("Failed"), 500))
  }

  /** Whitespace around an argument is ignored by every route. */
  lemma SearchIgnoresPadding(args: map<string, string>, pre: string, v: string, post: string,
                             outcome: Settled<seq<SearchResult>>)
    requires AllSpace(pre) && AllSpace(post)
    ensures Search(args["term" := pre + v + post], outcome) == Search(args["term" := v], outcome)
  {
    StripIgnoresPadding(pre, v, post);
  }

  lemma DetailsIgnorePadding(args: map<string, string>, pre: string, v: string, post: string,
                             outcome: Settled<Option<DistroDetails>>)
    requires AllSpace(pre) && AllSpace(post)
    ensures DistroDetailsRoute(args["uri" := pre + v + post], outcome) == DistroDetailsRoute(args["uri" := v], outcome)
  {
    StripIgnoresPadding(pre, v, post);
  }

  lemma GraphIgnoresPadding(args: map<string, string>, pre: string, v: string, post: string,
                            outcome: Settled<GraphData>)
    requires AllSpace(pre) && AllSpace(post)
    ensures GenealogyGraphRoute(args["centerUri" := pre + v + post], outcome) ==
            GenealogyGraphRoute(args["centerUri" := v], outcome)
  {
    StripIgnoresPadding(pre, v, post);
  }

  /** Wired to the modelled services, which catch every exception themselves: the search
      route always answers 200 with exactly what search_distros gives for the stripped
      term (its own guard and the service's agree, so a call always reaches Wikidata);
      the details route answers 200 with the record for the stripped uri, or 400, or 404,
      and a failed Wikidata query shows as 404; the graph route always answers 200 with
      get_genealogy_graph's graph, which is empty after a failed query. */
  lemma ServicesNeverRaise(args: map<string, string>, answer: SparqlService.QueryOutcome)
    ensures var term := Strip(Arg(args, "term"));
            var h := Search(args, Returned(SparqlService.SearchDistros(term, answer).results));
            && h.response == Response(Results(SparqlService.SearchDistros(term, answer).results), 200)
            && (h.call.Some? ==> SparqlService.SearchDistros(term, answer).sent.Some?)
    ensures var uri := Strip(Arg(args, "uri"));
            var h := DistroDetailsRoute(args, Returned(SparqlService.DetailsOf(uri, answer)));
            && h.response.status in {200, 400, 404}
            && (h.response.status == 200 ==> h.response.body.Details? && h.response.body.details.uri == uri)
            && (uri != "" && answer.QueryFailed? ==> h.response.status == 404)
    ensures var c := Strip(Arg(args, "centerUri"));
            var center := if c == "" then None else Some(c);
            var h := GenealogyGraphRoute(args, Returned(SparqlService.GraphOf(center, answer)));
            && h.response == Response(Graph(SparqlService.GraphOf(center, answer)), 200)
            && (answer.QueryFailed? ==> h.response.body == Graph(EmptyGraph))
  {
  }
}
