/** The backend service's post-query processing (backend/services/sparql_service.py).
    The Wikidata call and the query texts are not modelled: each operation receives the
    outcome of its query, either the result bindings or a failure. */
module SparqlService {
  import opened Types

  /** One row of a SPARQL JSON result: variable name to the `value` of its binding. */
  type Binding = map<string, string>

  /** What the Wikidata call gave: the bindings under results.bindings (an absent
      results or bindings key reads as no bindings), or an exception of any kind. */
  datatype QueryOutcome = QueryFailed | Answered(bindings: seq<Binding>)

  function Lookup(b: Binding, key: string): Option<string>
  {
    if key in b then Some(b[key]) else None
  }

  // ---------------------------------------------------------------------------
  // escape_sparql
  // ---------------------------------------------------------------------------

  function Count(s: string, c: char): nat
  {
    if s == [] then 0 else (if s[0] == c then 1 else 0) + Count(s[1..], c)
  }

  /** Python's str.replace for a one-character pattern: every c becomes `rep`. */
  function Replace(s: string, c: char, rep: string): string
  {
    if s == [] then [] else (if s[0] == c then rep else [s[0]]) + Replace(s[1..], c, rep)
  }

  /** Backslashes are doubled first, then every double quote gets a backslash. */
  function EscapeSparql(text: string): string
  {
    Replace(Replace(text, '\\', "\\\\"), '"', "\\\"")
  }

  /** The escape of a single character. */
  function EscapeChar(c: char): string
  {
    if c == '\\' then "\\\\" else if c == '"' then "\\\"" else [c]
  }

  /** Reads an escaped literal back, left to right: `\\` and `\"` stand for one character,
      any other character stands for itself, and a quote that is not preceded by an
      escaping backslash (or a dangling backslash) makes the text invalid. */
  function Unescape(s: string): Option<string>
    decreases |s|
  {
    if s == [] then Some([])
    else if s[0] == '"' then None
    else if s[0] == '\\' then
      if |s| >= 2 && (s[1] == '\\' || s[1] == '"') then
        match Unescape(s[2..])
        case None => None
        case Some(t) => Some([s[1]] + t)
      else None
    else
      match Unescape(s[1..])
      case None => None
      case Some(t) => Some([s[0]] + t)
  }

  lemma {:induction false} ReplaceAppend(a: string, b: string, c: char, rep: string)
    ensures Replace(a + b, c, rep) == Replace(a, c, rep) + Replace(b, c, rep)
  {
    if a == [] {
      assert a + b == b;
    } else {
      assert (a + b)[0] == a[0];
      assert (a + b)[1..] == a[1..] + b;
      ReplaceAppend(a[1..], b, c, rep);
    }
  }

  /** The chained replacement escapes the text character by character. */
  lemma {:induction false} EscapeUnfolds(t: string)
    requires t != []
    ensures EscapeSparql(t) == EscapeChar(t[0]) + EscapeSparql(t[1..])
  {
    var x := if t[0] == '\\' then "\\\\" else [t[0]];
    var rest := Replace(t[1..], '\\', "\\\\");
    assert Replace(t, '\\', "\\\\") == x + rest;
    ReplaceAppend(x, rest, '"', "\\\"");
    if t[0] == '\\' {
      assert x == ['\\'] + ['\\'];
      ReplaceAppend(['\\'], ['\\'], '"', "\\\"");
      assert Replace(['\\'], '"', "\\\"") == ['\\'];
    } else {
      assert Replace(x, '"', "\\\"") == EscapeChar(t[0]);
    }
  }

  /** The output is one character longer than the input for every backslash and every quote. */
  lemma {:induction false} EscapeLength(t: string)
    ensures |EscapeSparql(t)| == |t| + Count(t, '\\') + Count(t, '"')
  {
    if t != [] {
      EscapeUnfolds(t);
      EscapeLength(t[1..]);
    }
  }

  /** Escaping leaves no bare quote, and reading the literal back gives the input. */
  lemma {:induction false} EscapeRoundTrip(t: string)
    ensures Unescape(EscapeSparql(t)) == Some(t)
  {
    if t != [] {
      EscapeUnfolds(t);
      EscapeRoundTrip(t[1..]);
      var e := EscapeSparql(t[1..]);
      var s := EscapeChar(t[0]) + e;
      if t[0] == '\\' || t[0] == '"' {
        assert s[0] == '\\' && s[1] == t[0] && s[2..] == e;
      } else {
        assert s[0] == t[0] && s[1..] == e;
      }
      assert [t[0]] + t[1..] == t;
    }
  }

  /** Every quote in a literal that reads back is preceded by a backslash. */
  lemma {:induction false} NoBareQuote(s: string, i: nat)
    requires Unescape(s).Some?
    requires i < |s| && s[i] == '"'
    ensures i > 0 && s[i - 1] == '\\'
  {
    if s[0] == '\\' {
      if i > 1 {
        NoBareQuote(s[2..], i - 2);
      }
    } else {
      NoBareQuote(s[1..], i - 1);
    }
  }

  // ---------------------------------------------------------------------------
  // search_distros
  // ---------------------------------------------------------------------------

  /** What search_distros did: the search literal its query embeds (None: no query
      was sent) and the records it returned. */
  datatype SearchRun = SearchRun(sent: Option<string>, results: seq<SearchResult>)

  /** The record of one binding; None where reading item or itemLabel raises. */
  function SearchRecord(b: Binding): Option<SearchResult>
  {
    if "item" in b && "itemLabel" in b then Some(SearchResult(b["item"], b["itemLabel"], Lookup(b, "description")))
    else None
  }

  /** The list comprehension over the bindings: it raises (None) as soon as one binding has no record. */
  function SearchRecords(bs: seq<Binding>): (r: Option<seq<SearchResult>>)
    ensures r.Some? <==> forall i :: 0 <= i < |bs| ==> SearchRecord(bs[i]).Some?
    ensures r.Some? ==> |r.value| == |bs| && forall i :: 0 <= i < |bs| ==> SearchRecord(bs[i]) == Some(r.value[i])
  {
    if bs == [] then Some([])
    else
      match SearchRecord(bs[0])
      case None => None
      case Some(rec) =>
        match SearchRecords(bs[1..])
        case None => None
        case Some(rest) => Some([rec] + rest)
  }

  function SearchDistros(term: string, answer: QueryOutcome): (r: SearchRun)
    ensures r.sent.None? <==> |term| < 2
    ensures r.sent.Some? ==> Unescape(r.sent.value) == Some(term)
    ensures r.sent.None? || answer.QueryFailed? ==> r.results == []
    ensures (answer.Answered? && exists i :: 0 <= i < |answer.bindings| && SearchRecord(answer.bindings[i]).None?) ==>
              r.results == []
    ensures (r.sent.Some? && answer.Answered? && forall i :: 0 <= i < |answer.bindings| ==> SearchRecord(answer.bindings[i]).Some?) ==>
              |r.results| == |answer.bindings| &&
              forall i :: 0 <= i < |answer.bindings| ==> Some(r.results[i]) == SearchRecord(answer.bindings[i])
  {
    if |term| < 2 then SearchRun(None, [])
    else
      EscapeRoundTrip(term);
      var sent := Some(EscapeSparql(term));
      match answer
      case QueryFailed => SearchRun(sent, [])
      case Answered(bs) =>
        match SearchRecords(bs)
        case None => SearchRun(sent, [])
        case Some(recs) => SearchRun(sent, recs)
  }

  // ---------------------------------------------------------------------------
  // get_distro_details
  // ---------------------------------------------------------------------------

  /** The binding names a based-on parent with uri u and carries its label. */
  predicate Cites(b: Binding, u: string)
  {
    "basedOn" in b && "basedOnLabel" in b && b["basedOn"] == u
  }

  /** The distinct parent uris cited by bs, each at the place it is first cited. */
  function FirstSeen(bs: seq<Binding>): (d: seq<string>)
    ensures forall i, j :: 0 <= i < j < |d| ==> d[i] != d[j]
    ensures forall u :: u in d <==> exists j :: 0 <= j < |bs| && Cites(bs[j], u)
  {
    if bs == [] then []
    else
      var pre := bs[..|bs| - 1];
      var b := bs[|bs| - 1];
      var d := FirstSeen(pre);
      assert forall j :: 0 <= j < |pre| ==> pre[j] == bs[j];
      if "basedOn" in b && "basedOnLabel" in b && b["basedOn"] !in d then d + [b["basedOn"]] else d
  }

  /** The label of the last binding of bs that cites u ("" when none does). */
  function LastLabel(bs: seq<Binding>, u: string): string
  {
    if bs == [] then ""
    else if Cites(bs[|bs| - 1], u) then bs[|bs| - 1]["basedOnLabel"]
    else LastLabel(bs[..|bs| - 1], u)
  }

  /** The basedOn list: one entry per distinct cited parent, in first-cited order,
      labelled by the last binding that cites it. */
  function BasedOnList(bs: seq<Binding>): seq<BasedOn>
  {
    var d := FirstSeen(bs);
    seq(|d|, i requires 0 <= i < |d| => BasedOn(LastLabel(bs, d[i]), d[i]))
  }

  /** Some entry of the list has uri u. */
  predicate Lists(r: seq<BasedOn>, u: string)
  {
    exists e :: e in r && e.uri == u
  }

  /** Every parent cited by a binding is listed, exactly once, and nothing else is listed. */
  lemma BasedOnExactlyOnce(bs: seq<Binding>)
    ensures forall i, j :: 0 <= i < j < |BasedOnList(bs)| ==> BasedOnList(bs)[i].uri != BasedOnList(bs)[j].uri
    ensures forall u :: Lists(BasedOnList(bs), u) <==> exists j :: 0 <= j < |bs| && Cites(bs[j], u)
  {
    var d := FirstSeen(bs);
    var r := BasedOnList(bs);
    forall u
      ensures Lists(r, u) <==> u in d
    {
      if u in d {
        var i :| 0 <= i < |d| && d[i] == u;
        assert r[i] in r;
      }
      if Lists(r, u) {
        var e :| e in r && e.uri == u;
        var i :| 0 <= i < |r| && r[i] == e;
        assert d[i] == u;
      }
    }
  }

  lemma {:induction false} FirstSeenOrder(bs: seq<Binding>, i: nat, k: nat, j: nat)
    requires i < k < |FirstSeen(bs)|
    requires j < |bs| && Cites(bs[j], FirstSeen(bs)[k])
    ensures exists j' :: 0 <= j' < j && Cites(bs[j'], FirstSeen(bs)[i])
  {
    var n := |bs|;
    var pre := bs[..n - 1];
    var d := FirstSeen(pre);
    var full := FirstSeen(bs);
    assert forall m :: 0 <= m < n - 1 ==> pre[m] == bs[m];
    assert full[..|d|] == d;
    if k < |d| {
      if j < n - 1 {
        assert Cites(pre[j], d[k]);
        FirstSeenOrder(pre, i, k, j);
        var j' :| 0 <= j' < j && Cites(pre[j'], d[i]);
        assert Cites(bs[j'], full[i]);
      } else {
        assert d[k] in d;
        var j0 :| 0 <= j0 < n - 1 && Cites(pre[j0], d[k]);
        FirstSeenOrder(pre, i, k, j0);
        var j' :| 0 <= j' < j0 && Cites(pre[j'], d[i]);
        assert Cites(bs[j'], full[i]);
      }
    } else {
      assert full[k] !in d;
      assert d[i] in d;
      var j' :| 0 <= j' < n - 1 && Cites(pre[j'], d[i]);
      assert Cites(bs[j'], full[i]);
    }
  }

  /** An entry listed before another was first cited before the other's first citation. */
  lemma BasedOnFirstSeenOrder(bs: seq<Binding>, i: nat, k: nat, j: nat)
    requires i < k < |BasedOnList(bs)|
    requires j < |bs| && Cites(bs[j], BasedOnList(bs)[k].uri)
    ensures exists j' :: 0 <= j' < j && Cites(bs[j'], BasedOnList(bs)[i].uri)
  {
    FirstSeenOrder(bs, i, k, j);
  }

  lemma {:induction false} LastLabelIsLast(bs: seq<Binding>, u: string, j: nat)
    requires j < |bs| && Cites(bs[j], u)
    ensures exists m :: j <= m < |bs| && Cites(bs[m], u) && bs[m]["basedOnLabel"] == LastLabel(bs, u) &&
                        forall k :: m < k < |bs| ==> !Cites(bs[k], u)
  {
    var n := |bs|;
    if !Cites(bs[n - 1], u) {
      var pre := bs[..n - 1];
      assert forall m :: 0 <= m < n - 1 ==> pre[m] == bs[m];
      LastLabelIsLast(pre, u, j);
      var m :| j <= m < n - 1 && Cites(pre[m], u) && pre[m]["basedOnLabel"] == LastLabel(pre, u) &&
               forall k :: m < k < n - 1 ==> !Cites(pre[k], u);
      assert Cites(bs[m], u) && forall k :: m < k < n ==> !Cites(bs[k], u);
    }
  }

  /** Each entry carries the label of the last binding that cites its uri. */
  lemma BasedOnLabelFromLast(bs: seq<Binding>, i: nat)
    requires i < |BasedOnList(bs)|
    ensures exists m :: 0 <= m < |bs| && Cites(bs[m], BasedOnList(bs)[i].uri) &&
                        bs[m]["basedOnLabel"] == BasedOnList(bs)[i].name &&
                        forall k :: m < k < |bs| ==> !Cites(bs[k], BasedOnList(bs)[i].uri)
  {
    var u := BasedOnList(bs)[i].uri;
    assert u == FirstSeen(bs)[i];
    assert u in FirstSeen(bs);
    var j :| 0 <= j < |bs| && Cites(bs[j], u);
    LastLabelIsLast(bs, u, j);
  }

  /** The record get_distro_details returns, or None where it returns None. */
  function DetailsOf(uri: string, answer: QueryOutcome): (r: Option<DistroDetails>)
    ensures r.None? <==> answer.QueryFailed? || answer.bindings == [] || "name" !in answer.bindings[0]
    ensures r.Some? ==>
              var first := answer.bindings[0];
              && r.value.uri == uri
              && r.value.name == first["name"]
              && r.value.logo == Lookup(first, "logo")
              && r.value.website == Lookup(first, "website")
              && r.value.packageManager == Lookup(first, "packageManagerLabel")
              && r.value.description == Some("")
              && r.value.basedOn == Some(BasedOnList(answer.bindings))
  {
    match answer
    case QueryFailed => None
    case Answered(bs) =>
      if bs == [] || "name" !in bs[0] then None
      else
        var first := bs[0];
        Some(DistroDetails(uri, first["name"], Lookup(first, "logo"), Some(""), Some(BasedOnList(bs)),
                           Lookup(first, "packageManagerLabel"), Lookup(first, "website")))
  }

  method GetDistroDetails(uri: string, answer: QueryOutcome) returns (r: Option<DistroDetails>)
    ensures r == DetailsOf(uri, answer)
  {
    if answer.QueryFailed? {
      return None;
    }
    var bs := answer.bindings;
    if |bs| == 0 {
      return None;
    }
    var first := bs[0];
    var order: seq<string> := [];
    var labels: map<string, string> := map[];
    var i := 0;
    while i < |bs|
      invariant i <= |bs|
      invariant order == FirstSeen(bs[..i])
      invariant forall u :: u in labels <==> u in order
      invariant forall u :: u in labels ==> labels[u] == LastLabel(bs[..i], u)
    {
      var b := bs[i];
      assert bs[..i + 1][..i] == bs[..i];
      if "basedOn" in b && "basedOnLabel" in b {
        if b["basedOn"] !in labels {
          order := order + [b["basedOn"]];
        }
        labels := labels[b["basedOn"] := b["basedOnLabel"]];
      }
      i := i + 1;
    }
    assert bs[..i] == bs;
    if "name" !in first {
      return None;
    }
    var basedOn := seq(|order|, k requires 0 <= k < |order| => BasedOn(labels[order[k]], order[k]));
    assert basedOn == BasedOnList(bs);
    r := Some(DistroDetails(uri, first["name"], Lookup(first, "logo"), Some(""), Some(basedOn),
                            Lookup(first, "packageManagerLabel"), Lookup(first, "website")));
  }

  // ---------------------------------------------------------------------------
  // get_genealogy_graph
  // ---------------------------------------------------------------------------

  const CenterColor := "#3b82f6"
  const ParentColor := "#22c55e"
  const OtherColor := "#64748b"

  /** The Q-ids of the six family roots of the uncentered query. */
  const RootIds: seq<string> := ["Q7719", "Q186986", "Q54100", "Q22671", "Q94", "Q170666"]

  datatype Attrs = Attrs(color: string, val: int)

  function StartsWith(s: string, prefix: string): bool
  {
    |prefix| <= |s| && s[..|prefix|] == prefix
  }

  /** Python's `needle in hay` on strings. */
  function Contains(hay: string, needle: string): bool
  {
    if StartsWith(hay, needle) then true
    else if hay == [] then false
    else Contains(hay[1..], needle)
  }

  /** Some root Q-id occurs in the id as a substring. */
  predicate IsRootId(id: string)
  {
    exists root :: root in RootIds && Contains(id, root)
  }

  /** The parents of the bindings whose item is the center (empty without a center).
      With a center, reading item of any binding, or parent of a matching one, raises
      when the key is absent: None. */
  function DirectParents(center: Option<string>, bs: seq<Binding>): (r: Option<set<string>>)
    ensures !Truthy(center) ==> r == Some({})
    ensures r.None? <==>
              (Truthy(center) &&
               exists j :: 0 <= j < |bs| && ("item" !in bs[j] || (bs[j]["item"] == center.value && "parent" !in bs[j])))
    ensures r.Some? && Truthy(center) ==>
              forall p :: p in r.value <==>
                exists j :: 0 <= j < |bs| && Lookup(bs[j], "item") == Some(center.value) && Lookup(bs[j], "parent") == Some(p)
  {
    if !Truthy(center) || bs == [] then Some({})
    else
      var pre := bs[..|bs| - 1];
      var b := bs[|bs| - 1];
      assert forall j :: 0 <= j < |pre| ==> pre[j] == bs[j];
      match DirectParents(center, pre)
      case None => None
      case Some(dp) =>
        if "item" !in b then None
        else if b["item"] != center.value then Some(dp)
        else if "parent" !in b then None
        else Some(dp + {b["parent"]})
  }

  /** get_attrs: importance and colour relative to the center. With a center, 3 goes to
      the center alone and 2 to its direct parents; without one every id gets 1. The
      colour is fixed by the importance. */
  function GetAttrs(center: Option<string>, directParents: set<string>, id: string): (a: Attrs)
    ensures a.val in {1, 2, 3}
    ensures a.color == if a.val == 3 then CenterColor else if a.val == 2 then ParentColor else OtherColor
    ensures Truthy(center) ==> (a.val == 3 <==> id == center.value)
    ensures Truthy(center) ==> (a.val == 2 <==> id != center.value && id in directParents)
    ensures !Truthy(center) ==> a.val == 1
  {
    if Truthy(center) then
      if id == center.value then Attrs(CenterColor, 3)
      else if id in directParents then Attrs(ParentColor, 2)
      else Attrs(OtherColor, 1)
    else Attrs(OtherColor, 1)
  }

  /** The node created for id x by binding b: as b's parent when x is that parent (the
      parent is handled first), else as b's item. None where the label it reads is absent. */
  function NewNode(center: Option<string>, directParents: set<string>, b: Binding, x: string): (r: Option<GraphNode>)
    requires "parent" in b && "item" in b
    ensures r.Some? ==> r.value.id == x && r.value.val in {1, 2, 3} && Truthy(r.value.color)
  {
    if x == b["parent"] then
      if "parentLabel" !in b then None
      else
        var attrs := if !Truthy(center) && IsRootId(x) then Attrs(CenterColor, 2) else GetAttrs(center, directParents, x);
        Some(GraphNode(x, b["parentLabel"], attrs.val, Some(attrs.color), None))
    else if "itemLabel" !in b then None
    else
      var attrs := GetAttrs(center, directParents, x);
      Some(GraphNode(x, b["itemLabel"], attrs.val, Some(attrs.color), Lookup(b, "logo")))
  }

  /** The importance and colour rules: with a center, 3 for the center, 2 for its direct
      parents, 1 otherwise; without one, 2 for a parent whose id contains a root Q-id and 1
      otherwise. The name comes from the role's label, and only an item gets a logo. A
      missing label is an error. */
  lemma NewNodeRules(center: Option<string>, directParents: set<string>, b: Binding, x: string)
    requires "parent" in b && "item" in b
    ensures var r := NewNode(center, directParents, b, x);
            && (r.None? <==> if x == b["parent"] then "parentLabel" !in b else "itemLabel" !in b)
            && (r.Some? ==> r.value.name == if x == b["parent"] then b["parentLabel"] else b["itemLabel"])
            && (r.Some? && Truthy(center) ==>
                  && (r.value.val == 3 <==> x == center.value)
                  && (r.value.val == 2 <==> x != center.value && x in directParents))
            && (r.Some? && !Truthy(center) ==> (r.value.val == 2 <==> x == b["parent"] && IsRootId(x)))
            && (r.Some? ==>
                  r.value.color == Some(if r.value.val == 1 then OtherColor
                                        else if r.value.val == 2 && Truthy(center) then ParentColor
                                        else CenterColor))
            && (r.Some? ==> r.value.logo == if x == b["parent"] then None else Lookup(b, "logo"))
  {
  }

  /** The state of the loop over the bindings: node ids in insertion order, the nodes by
      id (the dict nodes_map) and the links so far. */
  datatype Build = Build(order: seq<string>, nodes: map<string, GraphNode>, links: seq<GraphLink>)

  /** Ids are listed once each, every listed id has its node, every node carries its own
      id, an importance in 1..3 and a colour, and every link joins two nodes. */
  ghost predicate Consistent(st: Build)
  {
    && (forall i, j :: 0 <= i < j < |st.order| ==> st.order[i] != st.order[j])
    && (forall x :: x in st.nodes <==> x in st.order)
    && (forall x :: x in st.nodes ==> st.nodes[x].id == x && st.nodes[x].val in {1, 2, 3} && Truthy(st.nodes[x].color))
    && (forall l :: l in st.links ==> l.source in st.nodes && l.target in st.nodes)
  }

  /** Adds the node for x unless x already has one. */
  function AddNode(center: Option<string>, directParents: set<string>, st: Build, b: Binding, x: string): Option<Build>
    requires "parent" in b && "item" in b
  {
    if x in st.nodes then Some(st)
    else
      match NewNode(center, directParents, b, x)
      case None => None
      case Some(n) => Some(Build(st.order + [x], st.nodes[x := n], st.links))
  }

  /** One iteration of the loop: both endpoints get a node, then the link is appended. */
  function AddBinding(center: Option<string>, directParents: set<string>, st: Build, b: Binding): Option<Build>
  {
    if "parent" !in b || "item" !in b then None
    else
      match AddNode(center, directParents, st, b, b["parent"])
      case None => None
      case Some(st1) =>
        match AddNode(center, directParents, st1, b, b["item"])
        case None => None
        case Some(st2) => Some(st2.(links := st2.links + [GraphLink(b["parent"], b["item"])]))
  }

  lemma AddNodeFacts(center: Option<string>, directParents: set<string>, st: Build, b: Binding, x: string)
    requires "parent" in b && "item" in b
    requires AddNode(center, directParents, st, b, x).Some?
    ensures var r := AddNode(center, directParents, st, b, x).value;
            && x in r.nodes && r.links == st.links
            && (forall y :: y in st.nodes ==> y in r.nodes && r.nodes[y] == st.nodes[y])
            && (forall y :: y in r.nodes ==> y in st.nodes || y == x)
            && (Consistent(st) ==> Consistent(r))
  {
  }

  /** A step keeps the nodes it had, adds only the binding's endpoints, appends the
      binding's link and keeps the state consistent. */
  lemma AddBindingFacts(center: Option<string>, directParents: set<string>, st: Build, b: Binding)
    requires AddBinding(center, directParents, st, b).Some?
    ensures "parent" in b && "item" in b
    ensures var r := AddBinding(center, directParents, st, b).value;
            && r.links == st.links + [GraphLink(b["parent"], b["item"])]
            && (forall y :: y in st.nodes ==> y in r.nodes && r.nodes[y] == st.nodes[y])
            && (forall y :: y in r.nodes ==> y in st.nodes || y == b["parent"] || y == b["item"])
            && (Consistent(st) ==> Consistent(r))
  {
    AddNodeFacts(center, directParents, st, b, b["parent"]);
    var st1 := AddNode(center, directParents, st, b, b["parent"]).value;
    AddNodeFacts(center, directParents, st1, b, b["item"]);
  }

  /** The loop over the bindings; None where a key read raises. */
  function Fold(center: Option<string>, directParents: set<string>, bs: seq<Binding>): Option<Build>
  {
    if bs == [] then Some(Build([], map[], []))
    else
      match Fold(center, directParents, bs[..|bs| - 1])
      case None => None
      case Some(st) => AddBinding(center, directParents, st, bs[|bs| - 1])
  }

  /** The loop keeps its state consistent. */
  lemma {:induction false} FoldConsistent(center: Option<string>, directParents: set<string>, bs: seq<Binding>)
    requires Fold(center, directParents, bs).Some?
    ensures Consistent(Fold(center, directParents, bs).value)
  {
    if bs != [] {
      FoldLast(center, directParents, bs);
      FoldConsistent(center, directParents, bs[..|bs| - 1]);
      AddBindingFacts(center, directParents, Fold(center, directParents, bs[..|bs| - 1]).value, bs[|bs| - 1]);
    }
  }

  /** There is one link per binding, in binding order, from its parent to its item. */
  lemma {:induction false} FoldLinks(center: Option<string>, directParents: set<string>, bs: seq<Binding>)
    requires Fold(center, directParents, bs).Some?
    ensures LinksFollow(Fold(center, directParents, bs).value.links, bs)
  {
    if bs != [] {
      var n := |bs|;
      var pre := bs[..n - 1];
      FoldLast(center, directParents, bs);
      FoldLinks(center, directParents, pre);
      var st := Fold(center, directParents, pre).value;
      AddBindingFacts(center, directParents, st, bs[n - 1]);
      LinksExtend(st.links, pre, bs);
    }
  }

  /** Link j runs from the parent of binding j to its item, for every binding. */
  predicate LinksFollow(links: seq<GraphLink>, bs: seq<Binding>)
  {
    && |links| == |bs|
    && forall j :: 0 <= j < |bs| ==>
         && "parent" in bs[j] && "item" in bs[j]
         && links[j] == GraphLink(bs[j]["parent"], bs[j]["item"])
  }

  lemma LinksExtend(links: seq<GraphLink>, pre: seq<Binding>, bs: seq<Binding>)
    requires bs != [] && pre == bs[..|bs| - 1]
    requires "parent" in bs[|bs| - 1] && "item" in bs[|bs| - 1]
    requires LinksFollow(links, pre)
    ensures LinksFollow(links + [GraphLink(bs[|bs| - 1]["parent"], bs[|bs| - 1]["item"])], bs)
  {
    forall j | 0 <= j < |bs| - 1
      ensures pre[j] == bs[j]
    {
    }
  }

  /** The nodes in insertion order (list(nodes_map.values())) and the links. */
  function GraphOfBuild(st: Build): GraphData
    requires Consistent(st)
  {
    GraphData(seq(|st.order|, k requires 0 <= k < |st.order| => st.nodes[st.order[k]]), st.links)
  }

  lemma BuildGraphShape(st: Build)
    requires Consistent(st)
    ensures var g := GraphOfBuild(st);
            && (forall i, j :: 0 <= i < j < |g.nodes| ==> g.nodes[i].id != g.nodes[j].id)
            && (forall n :: n in g.nodes ==> n.val in {1, 2, 3} && Truthy(n.color) && n.id in st.nodes && st.nodes[n.id] == n)
            && (forall x :: x in st.nodes ==> HasNode(g, x))
            && (forall l :: l in g.links ==> HasNode(g, l.source) && HasNode(g, l.target))
  {
    var g := GraphOfBuild(st);
    forall x | x in st.nodes
      ensures HasNode(g, x)
    {
      var k :| 0 <= k < |st.order| && st.order[k] == x;
      assert g.nodes[k] in g.nodes;
    }
  }

  /** Direct parents first, then the loop; None where a key read raises. */
  function Built(center: Option<string>, bs: seq<Binding>): Option<Build>
  {
    match DirectParents(center, bs)
    case None => None
    case Some(dp) => Fold(center, dp, bs)
  }

  /** The graph get_genealogy_graph returns; any failure gives the empty graph. */
  function GraphOf(center: Option<string>, answer: QueryOutcome): GraphData
  {
    match answer
    case QueryFailed => EmptyGraph
    case Answered(bs) =>
      match Built(center, bs)
      case None => EmptyGraph
      case Some(st) =>
        FoldConsistent(center, DirectParents(center, bs).value, bs);
        GraphOfBuild(st)
  }

  /** Node ids are unique, every importance is 1, 2 or 3, every node has a colour, and
      every link joins two returned nodes; a failed query gives the empty graph. */
  lemma GraphOfShape(center: Option<string>, answer: QueryOutcome)
    ensures var g := GraphOf(center, answer);
            && (answer.QueryFailed? ==> g == EmptyGraph)
            && (forall i, j :: 0 <= i < j < |g.nodes| ==> g.nodes[i].id != g.nodes[j].id)
            && (forall n :: n in g.nodes ==> n.val in {1, 2, 3} && Truthy(n.color))
            && (forall l :: l in g.links ==> HasNode(g, l.source) && HasNode(g, l.target))
  {
    if answer.Answered? && Built(center, answer.bindings).Some? {
      FoldConsistent(center, DirectParents(center, answer.bindings).value, answer.bindings);
      BuildGraphShape(Built(center, answer.bindings).value);
    }
  }

  /** One step of the fold: the last binding is added to the fold of the others. */
  lemma FoldLast(center: Option<string>, directParents: set<string>, bs: seq<Binding>)
    requires bs != [] && Fold(center, directParents, bs).Some?
    ensures Fold(center, directParents, bs[..|bs| - 1]).Some?
    ensures Fold(center, directParents, bs) ==
            AddBinding(center, directParents, Fold(center, directParents, bs[..|bs| - 1]).value, bs[|bs| - 1])
  {
  }

  /** The binding names x as its parent or its item. */
  predicate Mentions(b: Binding, x: string)
  {
    Lookup(b, "parent") == Some(x) || Lookup(b, "item") == Some(x)
  }

  /** Every node was created for an id some binding mentions. */
  lemma {:induction false} NodesAreMentioned(center: Option<string>, directParents: set<string>, bs: seq<Binding>, x: string)
    requires Fold(center, directParents, bs).Some? && x in Fold(center, directParents, bs).value.nodes
    ensures exists j :: 0 <= j < |bs| && Mentions(bs[j], x)
  {
    var n := |bs|;
    var pre := bs[..n - 1];
    FoldLast(center, directParents, bs);
    var st := Fold(center, directParents, pre).value;
    if x in st.nodes {
      NodesAreMentioned(center, directParents, pre, x);
      var j :| 0 <= j < n - 1 && Mentions(pre[j], x);
      assert pre[j] == bs[j];
    } else {
      assert Mentions(bs[n - 1], x);
    }
  }

  /** The first binding that mentions an id fixes its node: name, importance, colour and logo
      are those NewNode gives for that binding. */
  lemma {:induction false} FirstMentionFixesNode(center: Option<string>, directParents: set<string>, bs: seq<Binding>, j: nat, x: string)
    requires Fold(center, directParents, bs).Some?
    requires j < |bs| && Mentions(bs[j], x)
    requires forall k :: 0 <= k < j ==> !Mentions(bs[k], x)
    ensures "parent" in bs[j] && "item" in bs[j]
    ensures x in Fold(center, directParents, bs).value.nodes
    ensures Some(Fold(center, directParents, bs).value.nodes[x]) == NewNode(center, directParents, bs[j], x)
  {
    var n := |bs|;
    var pre := bs[..n - 1];
    FoldLast(center, directParents, bs);
    var st := Fold(center, directParents, pre).value;
    var r := Fold(center, directParents, bs).value;
    var b := bs[n - 1];
    PrefixUnmentioned(bs, pre, j, x);
    if j < n - 1 {
      assert pre[j] == bs[j];
      FirstMentionFixesNode(center, directParents, pre, j, x);
      AddBindingFacts(center, directParents, st, b);
    } else {
      UnmentionedAbsent(center, directParents, pre, x);
      AddBindingCreates(center, directParents, st, b, x);
    }
  }

  /** Dropping the last binding keeps the bindings before j unchanged. */
  lemma PrefixUnmentioned(bs: seq<Binding>, pre: seq<Binding>, j: nat, x: string)
    requires j < |bs| && pre == bs[..|bs| - 1]
    requires forall k :: 0 <= k < j ==> !Mentions(bs[k], x)
    ensures forall k :: 0 <= k < j ==> !Mentions(pre[k], x)
  {
  }

  /** An id no binding mentions has no node. */
  lemma UnmentionedAbsent(center: Option<string>, directParents: set<string>, bs: seq<Binding>, x: string)
    requires Fold(center, directParents, bs).Some?
    requires forall k :: 0 <= k < |bs| ==> !Mentions(bs[k], x)
    ensures x !in Fold(center, directParents, bs).value.nodes
  {
    if x in Fold(center, directParents, bs).value.nodes {
      NodesAreMentioned(center, directParents, bs, x);
    }
  }

  /** An id that the binding mentions and that has no node yet gets the node NewNode creates. */
  lemma AddBindingCreates(center: Option<string>, directParents: set<string>, st: Build, b: Binding, x: string)
    requires AddBinding(center, directParents, st, b).Some?
    requires Mentions(b, x) && x !in st.nodes
    ensures "parent" in b && "item" in b
    ensures x in AddBinding(center, directParents, st, b).value.nodes
    ensures Some(AddBinding(center, directParents, st, b).value.nodes[x]) == NewNode(center, directParents, b, x)
  {
    var st1 := AddNode(center, directParents, st, b, b["parent"]).value;
    if x == b["parent"] {
      assert st1.nodes[x] == NewNode(center, directParents, b, x).value;
    } else {
      assert x !in st1.nodes;
    }
  }

  /** Folding one more binding of bs. */
  lemma FoldSnoc(center: Option<string>, directParents: set<string>, bs: seq<Binding>, i: nat)
    requires i < |bs|
    ensures Fold(center, directParents, bs[..i + 1]) ==
            match Fold(center, directParents, bs[..i])
            case None => None
            case Some(st) => AddBinding(center, directParents, st, bs[i])
  {
    assert bs[..i + 1][..i] == bs[..i];
  }

  /** A Fold that has raised stays raised whatever bindings follow. */
  lemma {:induction false} FoldStuck(center: Option<string>, directParents: set<string>, bs: seq<Binding>, i: nat)
    requires i <= |bs| && Fold(center, directParents, bs[..i]).None?
    ensures Fold(center, directParents, bs).None?
    decreases |bs| - i
  {
    if i < |bs| {
      assert bs[..i + 1][..i] == bs[..i];
      FoldStuck(center, directParents, bs, i + 1);
    } else {
      assert bs[..i] == bs;
    }
  }

  /** There is one link per binding, in binding order, from its parent to its item. */
  lemma GraphLinksFollowBindings(center: Option<string>, bs: seq<Binding>)
    requires Built(center, bs).Some?
    ensures |GraphOf(center, Answered(bs)).links| == |bs|
    ensures forall j :: 0 <= j < |bs| ==>
              && "parent" in bs[j] && "item" in bs[j]
              && GraphOf(center, Answered(bs)).links[j] == GraphLink(bs[j]["parent"], bs[j]["item"])
  {
    FoldLinks(center, DirectParents(center, bs).value, bs);
  }

  /** Each returned node is the one created by the first binding that mentions its id,
      and every id a binding mentions has a node. */
  lemma GraphNodeFromFirstMention(center: Option<string>, bs: seq<Binding>, j: nat, x: string)
    requires Built(center, bs).Some?
    requires j < |bs| && Mentions(bs[j], x)
    requires forall k :: 0 <= k < j ==> !Mentions(bs[k], x)
    ensures "parent" in bs[j] && "item" in bs[j]
    ensures exists n :: n in GraphOf(center, Answered(bs)).nodes && n.id == x &&
                        Some(n) == NewNode(center, DirectParents(center, bs).value, bs[j], x)
  {
    var dp := DirectParents(center, bs).value;
    var st := Fold(center, dp, bs).value;
    FirstMentionFixesNode(center, dp, bs, j, x);
    FoldConsistent(center, dp, bs);
    BuildGraphShape(st);
    var g := GraphOf(center, Answered(bs));
    assert HasNode(g, x);
    var n :| n in g.nodes && n.id == x;
    assert st.nodes[n.id] == n;
  }

  /** Every returned node has an id that some binding mentions. */
  lemma GraphNodesAreMentioned(center: Option<string>, bs: seq<Binding>, n: GraphNode)
    requires Built(center, bs).Some?
    requires n in GraphOf(center, Answered(bs)).nodes
    ensures exists j :: 0 <= j < |bs| && Mentions(bs[j], n.id)
  {
    var dp := DirectParents(center, bs).value;
    FoldConsistent(center, dp, bs);
    BuildGraphShape(Fold(center, dp, bs).value);
    NodesAreMentioned(center, dp, bs, n.id);
  }

  method GetGenealogyGraph(center: Option<string>, answer: QueryOutcome) returns (g: GraphData)
    ensures g == GraphOf(center, answer)
  {
    if answer.QueryFailed? {
      return EmptyGraph;
    }
    var bs := answer.bindings;
    var parents := DirectParents(center, bs);
    if parents.None? {
      return EmptyGraph;
    }
    var dp := parents.value;
    var st := Build([], map[], []);
    var i := 0;
    while i < |bs|
      invariant i <= |bs|
      invariant Fold(center, dp, bs[..i]) == Some(st)
    {
      var b := bs[i];
      FoldSnoc(center, dp, bs, i);
      if "parent" !in b || "item" !in b {
        FoldStuck(center, dp, bs, i + 1);
        return EmptyGraph;
      }
      var withParent := AddNode(center, dp, st, b, b["parent"]);
      if withParent.None? {
        FoldStuck(center, dp, bs, i + 1);
        return EmptyGraph;
      }
      var withItem := AddNode(center, dp, withParent.value, b, b["item"]);
      if withItem.None? {
        FoldStuck(center, dp, bs, i + 1);
        return EmptyGraph;
      }
      st := withItem.value.(links := withItem.value.links + [GraphLink(b["parent"], b["item"])]);
      i := i + 1;
    }
    assert bs[..i] == bs;
    FoldConsistent(center, dp, bs);
    g := GraphData(seq(|st.order|, k requires 0 <= k < |st.order| => st.nodes[st.order[k]]), st.links);
  }
}
