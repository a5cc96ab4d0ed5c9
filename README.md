# Linux genealogy explorer: a Dafny model

The explorer shows the "based on" family tree of Linux distributions, using data from
Wikidata. A Flask backend asks Wikidata's SPARQL endpoint about distributions and shapes
the answer into JSON in three ways:

- a search-result list;
- a details record with its de-duplicated "based on" parents;
- a genealogy graph of nodes and links. Each node has an importance (`val`) and a colour.

A React frontend then does four things:

- it fetches these results through three functions that never fail;
- it keeps the selected distribution, its details and the graph in page state;
- it drives a debounced search box;
- it draws the graph on a canvas.

This project models that core in Dafny and proves its behaviour.

| Dafny file | module | models |
|---|---|---|
| `types.dfy` | `Types` | the record shapes of `frontend/types.ts`, with optional fields as `Option` |
| `sparql_service.dfy` | `SparqlService` | `escape_sparql`, `search_distros`, `get_distro_details`, `get_genealogy_graph` (post-query processing) |
| `api.dfy` | `Api` | the three Flask routes: argument stripping (Python `str.strip`), validation, status codes |
| `client.dfy` | `Client` | `searchDistros`, `getDistroDetails`, `getGenealogyGraph`: short-query guard, URL assembly, status-to-result mapping |
| `wire.dfy` | `Wire` | the two sides put together: the response a route sends is the reply the browser reads |
| `app.dfy` | `Selection` | the page state of `App.tsx` as class `App`: selection, loads issued and settled, reset |
| `search_bar.dfy` | `SearchControl` | the search box of `SearchBar.tsx` as class `SearchBar`: typing, debounce timer, searches issued and settled, selection, outside clicks |
| `graph_view.dfy` | `GraphView` | the drawing decisions of `GraphView.tsx`: radius, hit radius, fill, styles, label placement, placeholder |

The Wikidata call is replaced by its outcome, a `QueryOutcome`. That is either
`QueryFailed` (any exception) or `Answered(bindings)`, where each binding maps a SPARQL
variable to its `value`. A Python `KeyError` inside a `try` becomes the `except` path,
which is why `SearchRecords`, `DirectParents`, `Fold` and `DetailsOf` return `None` or
`[]` when a key is missing.

The two loops of the backend are imperative methods, proved equal to specification
functions, and every property is proved about those functions:

- `GetDistroDetails` is the loop that fills `based_on_map`; it is proved equal to `DetailsOf`.
- `GetGenealogyGraph` is the loop that grows `nodes_map` and `links`; it is proved equal
  to `GraphOf`, which is built from `Fold`.

Asynchronous work in the frontend is split into an *issue* event and a *complete* event.
Issued loads and searches wait in an `inFlight` sequence, and any one of them may settle
next. A settled call is `Settled<T>`: either `Returned(value)` or `Threw`.

The code has no sequence token and no stale-result guard, so a late reply can overwrite
a newer one (`LateDetailsWin`, `LateResultsWin`).

A short query clears the results only when the debounce timer fires
(`SearchBar.tsx:19-22`); `FireTimer` models this.

## Model

| member | source | states |
|---|---|---|
| SparqlService.EscapeSparql | backend/services/sparql_service.py:15-16 | the two chained `str.replace` calls; what they mean is stated by the lemmas below |
| SparqlService.EscapeUnfolds | backend/services/sparql_service.py:15-16 | the two chained replacements escape each character on its own: a backslash becomes two, a quote gains one backslash, and the backslash added before a quote is never doubled |
| SparqlService.EscapeLength | backend/services/sparql_service.py:15-16 | the escaped text is as long as the input plus one per backslash and one per double quote |
| SparqlService.EscapeRoundTrip | backend/services/sparql_service.py:15-16 | reading the escaped literal back left to right (`\\` and `\"` are one character each) gives exactly the input, so doubling backslashes before escaping quotes loses nothing |
| SparqlService.NoBareQuote | backend/services/sparql_service.py:15-16 | in any literal that reads back, in particular any escaped text, every `"` is preceded by a backslash, so the term cannot end the SPARQL string literal |
| SparqlService.SearchRecords | backend/services/sparql_service.py:40-44 | the comprehension succeeds iff every binding has `item` and `itemLabel`; it then gives one record per binding, in binding order, with `description` None when absent |
| SparqlService.SearchDistros | backend/services/sparql_service.py:18-46 | no query is sent iff the term is shorter than 2; the embedded literal reads back to the term; a failed query or any binding without `item`/`itemLabel` gives `[]`; otherwise one record per binding in order |
| SparqlService.BasedOnExactlyOnce | backend/services/sparql_service.py:75-86 | `basedOn` lists every uri cited by a binding with both `basedOn` and `basedOnLabel` exactly once, and nothing else |
| SparqlService.BasedOnFirstSeenOrder | backend/services/sparql_service.py:75-86 | entries keep first-seen order: an entry listed before another was cited by an earlier binding than any binding citing the other |
| SparqlService.BasedOnLabelFromLast | backend/services/sparql_service.py:75-86 | each entry's name is the `basedOnLabel` of the last binding citing its uri |
| SparqlService.DetailsOf | backend/services/sparql_service.py:68-95 | None iff the query failed, there are no bindings, or the first binding has no `name`; otherwise uri echoed, name/logo/website/packageManager (from `packageManagerLabel`) from the first binding only, description `""`, basedOn the de-duplicated list |
| SparqlService.GetDistroDetails | backend/services/sparql_service.py:68-95 | the loop over the bindings returns exactly `DetailsOf`; its invariant keeps the dict's keys in first-seen order with the latest label for each |
| SparqlService.DirectParents | backend/services/sparql_service.py:128 | without a center the set is empty; with one it holds exactly the parents of bindings whose item is the center; it raises (None) iff some binding lacks `item`, or a matching one lacks `parent` |
| SparqlService.GetAttrs | backend/services/sparql_service.py:130-133 | with a center, importance 3 goes to the center alone and 2 exactly to its other direct parents; without one every id gets 1; the colour is `#3b82f6`, `#22c55e` or `#64748b` for 3, 2 and 1 |
| SparqlService.NewNode | backend/services/sparql_service.py:138-149 | a created node carries the id it is created for, an importance in {1,2,3} and a non-empty colour |
| SparqlService.NewNodeRules | backend/services/sparql_service.py:130-149 | with a center: 3 exactly for the center, 2 exactly for its direct parents, 1 otherwise; without one: 2 exactly for a parent whose id contains one of the six root Q-ids; colour follows the importance; name from the role's label; logo only on items; a missing label raises |
| SparqlService.AddBindingFacts | backend/services/sparql_service.py:135-151 | one iteration keeps every existing node unchanged, adds nodes only for the binding's parent and item, appends exactly the link parent→item, and keeps the state consistent |
| SparqlService.FoldConsistent | backend/services/sparql_service.py:127-151 | after any number of iterations ids are listed once each, each listed id has its node, nodes carry their own id, importance 1..3 and a colour, and every link joins two nodes |
| SparqlService.FoldLinks | backend/services/sparql_service.py:151 | link j runs from the parent of binding j to its item, for every binding |
| SparqlService.GraphLinksFollowBindings | backend/services/sparql_service.py:135-153 | when no key read raises, the returned graph has one link per binding, parent to item, in binding order |
| SparqlService.GraphOf | backend/services/sparql_service.py:125-155 | the returned graph: empty after a failed query or any raise, otherwise the node of every id in insertion order and the links; its properties are the lemmas below |
| SparqlService.GraphOfShape | backend/services/sparql_service.py:125-155 | returned node ids are unique, every importance is in {1,2,3}, every node has a colour, every link's ends are returned nodes, and a failed query gives the empty graph |
| SparqlService.GraphNodeFromFirstMention | backend/services/sparql_service.py:138-149 | when no key read raises, every id a binding mentions has a node, and it is the node built from the first binding mentioning that id (name, importance, colour, logo) |
| SparqlService.GraphNodesAreMentioned | backend/services/sparql_service.py:135-153 | every returned node's id is the parent or item of some binding |
| SparqlService.AddNodeFacts | backend/services/sparql_service.py:138-149 | the `if id not in nodes_map` block, when it does not raise, leaves the links alone, keeps every existing node unchanged, adds at most the node for that id (which is then present) and keeps the state consistent |
| SparqlService.GetGenealogyGraph | backend/services/sparql_service.py:125-155 | the method, with early exits where a key read raises, returns exactly `GraphOf` |
| Api.Strip | backend/app.py:11 | `str.strip()` gives a text no longer than the input that neither starts nor ends with whitespace |
| Api.StripIsTrimmedSlice | backend/app.py:11 | `strip()` returns a slice of the input that neither starts nor ends with whitespace, with only whitespace cut on either side |
| Api.StripIgnoresPadding | backend/app.py:11 | whitespace added around a text does not change its stripped form |
| Api.StripIdempotent | backend/app.py:11 | stripping a stripped text changes nothing |
| Api.Search | backend/app.py:9-17 | the service is called iff the stripped term has 2 or more characters, and with that term; otherwise 200 with `[]`; a returned list is sent with 200; 500 exactly when the call raised |
| Api.DistroDetailsRoute | backend/app.py:20-29 | 400 iff the stripped uri is empty, with no call; 200 with the record iff the call returned a record; 404 iff it returned None; 500 iff it raised |
| Api.GenealogyGraphRoute | backend/app.py:32-38 | the service is always called, with None exactly when the stripped centerUri is empty; a returned graph is sent with 200; a raise gives 500 |
| Api.SearchIgnoresPadding | backend/app.py:11-13 | padding the term with whitespace does not change what the search route does |
| Api.DetailsIgnorePadding | backend/app.py:22-24 | padding the uri with whitespace does not change what the details route does |
| Api.GraphIgnoresPadding | backend/app.py:34 | padding centerUri with whitespace does not change what the graph route does; a whitespace-only one means no center |
| Api.ServicesNeverRaise | backend/app.py:14-38 | wired to the modelled services: the search route answers 200 with exactly `search_distros`'s list for the stripped term, and every call it makes passes the service's own length guard; the details route answers 200 with the record for the stripped uri, 400 or 404, and a failed Wikidata query shows as 404; the graph route answers 200 with `get_genealogy_graph`'s graph, empty after a failed query |
| Client.Utf16Length | frontend/services/sparqlService.ts:9 | JavaScript `length` lies between the number of characters and twice that, and equals it for text inside the Basic Multilingual Plane |
| Client.SearchDistros | frontend/services/sparqlService.ts:8-21 | no request iff the term is shorter than 2 code units; otherwise the request is `base/search?term=` plus the encoded term; the result is the parsed body of an ok reply and `[]` in every other case |
| Client.GetDistroDetails | frontend/services/sparqlService.ts:26-40 | the request is `base/distro-details?uri=` plus the encoded uri; the result is a record iff the reply is ok with a parsed body, and then it is that body; a 404 gives null |
| Client.GraphUrl | frontend/services/sparqlService.ts:48-51 | the URL is `base/genealogy-graph`, followed by `?centerUri=` and the encoded center exactly when the center is truthy |
| Client.GetGenealogyGraph | frontend/services/sparqlService.ts:46-62 | the request goes to `GraphUrl`; the result is the parsed body of an ok reply and the empty graph in every other case |
| Wire.SearchEndToEnd | backend/app.py:11-15 | whenever the route calls the service the browser did send the request; the service's list reaches the search box; an empty stripped term or a raise shows as `[]` |
| Wire.DetailsEndToEnd | frontend/services/sparqlService.ts:26-40 | a non-blank uri reaches `get_distro_details` stripped, and the browser receives exactly that call's result; a blank uri or a raise gives null |
| Wire.GraphEndToEnd | frontend/services/sparqlService.ts:46-62 | the route queries with the browser's stripped center, or with none when the browser sent none or only whitespace; the browser receives the returned graph, or the empty graph after a raise |
| Wire.ReceivedGraphWellFormed | backend/services/sparql_service.py:125-155 | with `get_genealogy_graph` behind the route, the browser receives exactly its graph, with unique ids, importances 1..3 and links between its own nodes |
| Selection.App.constructor | frontend/App.tsx:10-18 | initial state: nothing selected, no details, empty graph, no spinner; one uncentered graph load is issued |
| Selection.App.SetSelectedUri | frontend/App.tsx:21-26 | a change to a truthy uri turns the spinner on and issues one details load and one graph load centered on it, in that order; the same value or none issues nothing |
| Selection.App.HandleSearchSelect | frontend/App.tsx:49-51 | the reported uri becomes the selection, with the loads of the selection effect |
| Selection.App.HandleNodeClick | frontend/App.tsx:53-57 | clicking the selected node changes nothing; another node becomes the selection, with its loads |
| Selection.App.Reset | frontend/App.tsx:103-105 | selection and details become null, one uncentered graph load is issued, and loads already out are not cancelled |
| Selection.App.CompleteGraphLoad | frontend/App.tsx:28-35 | a returned graph replaces the one on show wholesale; a raise leaves it; nothing else changes |
| Selection.App.CompleteDetailsLoad | frontend/App.tsx:37-47 | the returned record (possibly null) replaces the details; a raise leaves them; the spinner goes off either way |
| Selection.ChooseSearchResult | frontend/App.tsx:72 | choosing a shown search result selects its uri on the page, with a details load and a centered graph load when the uri is new and non-empty, and otherwise no load; details and graph stay; the box takes the name, closes and keeps its results, spinner and searches |
| Selection.LateDetailsWin | frontend/App.tsx:40-41 | after selecting a then b, the details of a can settle last and be shown while b is selected |
| SearchControl.SearchBar.constructor | frontend/components/SearchBar.tsx:11-14 | empty query and results, no spinner, dropdown closed, and the first run of the query effect schedules the timer |
| SearchControl.SearchBar.ShowsDropdown | frontend/components/SearchBar.tsx:68 | the result list is rendered exactly when the dropdown is open and there is at least one result |
| SearchControl.SearchBar.SetQuery | frontend/components/SearchBar.tsx:34-35 | a new query replaces the pending timer with one for the new query, so at most one search is pending and it is for the current query |
| SearchControl.SearchBar.OnChange | frontend/components/SearchBar.tsx:57-60 | typing sets the query and opens the dropdown, which then shows iff there are results |
| SearchControl.SearchBar.OnFocus | frontend/components/SearchBar.tsx:61 | focusing opens the dropdown and changes nothing else |
| SearchControl.SearchBar.FireTimer | frontend/components/SearchBar.tsx:18-32 | a query shorter than 2 code units clears the results, issues nothing and leaves the spinner; a longer one turns the spinner on and issues one search for it |
| SearchControl.SearchBar.CompleteSearch | frontend/components/SearchBar.tsx:24-31 | a returned list replaces the results, a raise leaves them, and the spinner goes off either way |
| SearchControl.SearchBar.SelectResult | frontend/components/SearchBar.tsx:74-78 | choosing a result reports its uri once, puts its name in the box, closes the dropdown and keeps the results |
| SearchControl.SearchBar.MouseDown | frontend/components/SearchBar.tsx:40-43 | a mousedown outside closes the dropdown and keeps query and results; one inside changes nothing |
| SearchControl.LateResultsWin | frontend/components/SearchBar.tsx:25-26 | after searching q1 then q2, the results for q1 can settle last and be shown under q2 |
| GraphView.Radius | frontend/components/GraphView.tsx:49 | the drawn radius is 8 for importance 3, 6 for importance 2 and 4 for anything else |
| GraphView.RadiusFollowsImportance | frontend/components/GraphView.tsx:49 | a more important node is never smaller, and importances 1, 2, 3 get three different sizes |
| GraphView.HitRadius | frontend/components/GraphView.tsx:98-100 | the pointer-area radius, recomputed in the callback; `HitAreaCoversNode` relates it to the drawn radius |
| GraphView.HitAreaCoversNode | frontend/components/GraphView.tsx:98-100 | the pointer-area radius, computed separately, is the drawn radius plus exactly 5, so it is strictly larger |
| GraphView.PointerAreaContainsNode | frontend/components/GraphView.tsx:96-102 | the click target is a disc in the picking colour, concentric with the drawn circle and 5 larger |
| GraphView.Fill | frontend/components/GraphView.tsx:54 | the fill is never empty: the node's colour when it is present and not empty, else `#64748b` |
| GraphView.StyleFor | frontend/components/GraphView.tsx:58-74 | border, font weight and label colour of a node; `StyleOnlyMarksSelection` states what they depend on |
| GraphView.StyleOnlyMarksSelection | frontend/components/GraphView.tsx:58-74 | border, font weight and label colour depend only on whether `val` is 3, and the selected style differs from the other in all three and is bolder |
| GraphView.DrawNode | frontend/components/GraphView.tsx:41-77 | circle then border at the node's position with the radius and fill above; at zoom 0.7 or below exactly those two operations; above it, the label stroked in `#0f172a` first and then filled at the same point, centered on x at `y + radius + 4`, and nothing else |
| GraphView.Render | frontend/components/GraphView.tsx:85-89 | the placeholder is shown exactly when there are no nodes; otherwise the graph is drawn as given |
| GraphView.ServedNodesKeepTheirColour | frontend/components/GraphView.tsx:49-54 | a node built by the backend is filled with its own colour, never the fallback, and drawn with radius `2 * val + 2` |

## Left out

- `query_wikidata` and the SPARQL query texts are left out: they are network I/O, and
  their result is the `QueryOutcome` parameter. That uris are pasted into the query
  unescaped is therefore outside the model.
- Wikidata result bindings are maps from variable to value string. A binding entry
  without its `value` key is not modelled.
- `fetch`, `response.json()` and `import.meta.env` are parameters or replies:
  - the base URL is the `base` parameter;
  - `encodeURIComponent` is the `encode` parameter;
  - a reply is a `Reply` carrying a status and a body that parsed or did not.
- A JSON `null` body with an ok status is not modelled; the routes never send one.
- `Wire` takes the route's arguments to be the text the client encoded, because the
  query string decodes back to it. URL decoding itself is not modelled.
- Rendering is simplified. Each handler's state updates are applied together, and the
  effect keyed on the changed state runs straight after. React's render scheduling and
  batching are not modelled.
- The force simulation calls and the `ForceGraph2D` props are library behaviour and are
  left out. Node positions and the zoom scale are parameters.
- The zoom-dependent font size and line widths (divisions by `globalScale`) are float
  arithmetic and are left out, as are `textAlign`/`textBaseline`.
- The window resize listener, the container dimensions and the document listener
  registration are DOM plumbing and are left out. A mousedown is an event that says
  whether it fell inside the box.
- The case where `wrapperRef.current` is still null (before the box is mounted) is not
  modelled.
- The 400 ms debounce delay is left out. The timer is a pending value that fires as an
  event.
- `console.error` logging is left out.
- The `catch` in `loadGraph` and `loadDistroInfo`, and the `except` blocks of the routes,
  are kept as `Threw` outcomes. The functions they guard catch every failure themselves
  (`ServicesNeverRaise` shows what this means for the routes).
- `frontend/components/DistroCard.tsx` is presentational and is not part of this model.
- `frontend/types.ts` is modelled only as datatypes.
- The Flask and CORS setup and `app.run` are left out, as is all JSX markup and styling.
- Python's `len` counts code points, as Dafny's `|s|` does. JavaScript's `length` is
  `Client.Utf16Length`.
- `SparqlService.Unescape`, the reader used by `EscapeRoundTrip` and `NoBareQuote`, is more
  permissive than SPARQL's `"..."` literal grammar: it lets a raw line feed or carriage
  return stand for itself. `escape_sparql` leaves those characters as they are, so a term
  containing one builds an invalid query, Wikidata rejects it and the search returns `[]`.
  The model does not capture that rejection.
