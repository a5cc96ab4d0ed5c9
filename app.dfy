/** The page's selection state (frontend/App.tsx): the selected distribution, its
    details, the graph on show and the details spinner. Selecting a distribution issues
    a details load and a centered graph load; each load settles later, at any point and
    in any order with the others, and writes whatever it got. */
module Selection {
  import opened Types
  import SearchControl

  /** A load issued by the page and not yet settled. */
  datatype Load = DetailsLoad(uri: string) | GraphLoad(center: Option<string>)

  class App {
    var selectedUri: Option<string>
    var distroDetails: Option<DistroDetails>
    var graphData: GraphData
    var loadingDetails: bool
    /** Loads issued and not yet settled, in issue order. */
    var inFlight: seq<Load>

    /** The details spinner only shows while some details load is out. */
    ghost predicate Valid()
      reads this
    {
      loadingDetails ==> exists k :: 0 <= k < |inFlight| && inFlight[k].DetailsLoad?
    }

    /** Mount: nothing selected, no details, an empty graph, no spinner, and the mount
        effect issues one uncentered graph load. The selection effect also runs, but
        with nothing selected it issues nothing. */
    constructor()
      ensures Valid()
      ensures selectedUri == None && distroDetails == None && graphData == EmptyGraph && !loadingDetails
      ensures inFlight == [GraphLoad(None)]
    {
      selectedUri := None;
      distroDetails := None;
      graphData := EmptyGraph;
      loadingDetails := false;
      inFlight := [GraphLoad(None)];
    }

    /** setSelectedUri followed by the effect keyed on it: a change to a truthy uri
        starts loadDistroInfo (spinner on, details load out) and then a graph load
        centered on it; the same value, or no uri, issues nothing. */
    method SetSelectedUri(v: Option<string>)
      requires Valid()
      modifies this
      ensures Valid()
      ensures selectedUri == v
      ensures distroDetails == old(distroDetails) && graphData == old(graphData)
      ensures v != old(selectedUri) && Truthy(v) ==>
                inFlight == old(inFlight) + [DetailsLoad(v.value), GraphLoad(v)] && loadingDetails
      ensures !(v != old(selectedUri) && Truthy(v)) ==>
                inFlight == old(inFlight) && loadingDetails == old(loadingDetails)
    {
      var changed := v != selectedUri;
      selectedUri := v;
      if changed && Truthy(v) {
        loadingDetails := true;
        inFlight := inFlight + [DetailsLoad(v.value)];
        inFlight := inFlight + [GraphLoad(v)];
        assert inFlight[|inFlight| - 2].DetailsLoad?;
      }
    }

    /** handleSearchSelect: select the uri the search box reported. */
    method HandleSearchSelect(uri: string)
      requires Valid()
      modifies this
      ensures Valid()
      ensures selectedUri == Some(uri)
      ensures distroDetails == old(distroDetails) && graphData == old(graphData)
      ensures Some(uri) != old(selectedUri) && uri != "" ==>
                inFlight == old(inFlight) + [DetailsLoad(uri), GraphLoad(Some(uri))] && loadingDetails
      ensures !(Some(uri) != old(selectedUri) && uri != "") ==>
                inFlight == old(inFlight) && loadingDetails == old(loadingDetails)
    {
      SetSelectedUri(Some(uri));
    }

    /** handleNodeClick: clicking the selected node does nothing; clicking another one
        selects it. */
    method HandleNodeClick(id: string)
      requires Valid()
      modifies this
      ensures Valid()
      ensures old(selectedUri) == Some(id) ==>
                selectedUri == old(selectedUri) && inFlight == old(inFlight) && loadingDetails == old(loadingDetails)
      ensures selectedUri == Some(id)
      ensures distroDetails == old(distroDetails) && graphData == old(graphData)
      ensures old(selectedUri) != Some(id) && id != "" ==>
                inFlight == old(inFlight) + [DetailsLoad(id), GraphLoad(Some(id))] && loadingDetails
      ensures !(old(selectedUri) != Some(id) && id != "") ==>
                inFlight == old(inFlight) && loadingDetails == old(loadingDetails)
    {
      if Some(id) != selectedUri {
        SetSelectedUri(Some(id));
      }
    }

    /** The Reset View button, shown only while a distribution is selected: deselect,
        issue an uncentered graph load, drop the details. A details load still out is
        not cancelled. */
    method Reset()
      requires Valid() && Truthy(selectedUri)
      modifies this
      ensures Valid()
      ensures selectedUri == None && distroDetails == None
      ensures inFlight == old(inFlight) + [GraphLoad(None)]
      ensures graphData == old(graphData) && loadingDetails == old(loadingDetails)
    {
      SetSelectedUri(None);
      ghost var before := inFlight;
      inFlight := inFlight + [GraphLoad(None)];
      if loadingDetails {
        ghost var j :| 0 <= j < |before| && before[j].DetailsLoad?;
        assert inFlight[j] == before[j];
      }
      distroDetails := None;
    }

    /** Graph load k settles (loadGraph): the fetched graph replaces the one on show
        wholesale; a throw leaves it. */
    method CompleteGraphLoad(k: nat, outcome: Settled<GraphData>)
      requires Valid() && k < |inFlight| && inFlight[k].GraphLoad?
      modifies this
      ensures Valid()
      ensures inFlight == old(inFlight[..k] + inFlight[k + 1..])
      ensures graphData == if outcome.Returned? then outcome.value else old(graphData)
      ensures selectedUri == old(selectedUri) && distroDetails == old(distroDetails)
      ensures loadingDetails == old(loadingDetails)
    {
      ghost var before := inFlight;
      inFlight := inFlight[..k] + inFlight[k + 1..];
      if loadingDetails {
        ghost var j :| 0 <= j < |before| && before[j].DetailsLoad?;
        if j < k {
          assert inFlight[j] == before[j];
        } else {
          assert inFlight[j - 1] == before[j];
        }
      }
      if outcome.Returned? {
        graphData := outcome.value;
      }
    }

    /** Details load k settles (loadDistroInfo): the fetched record, possibly null,
        replaces the details; a throw leaves them; the spinner goes off either way, even
        if another details load is still out. */
    method CompleteDetailsLoad(k: nat, outcome: Settled<Option<DistroDetails>>)
      requires Valid() && k < |inFlight| && inFlight[k].DetailsLoad?
      modifies this
      ensures Valid()
      ensures inFlight == old(inFlight[..k] + inFlight[k + 1..])
      ensures distroDetails == if outcome.Returned? then outcome.value else old(distroDetails)
      ensures !loadingDetails
      ensures selectedUri == old(selectedUri) && graphData == old(graphData)
    {
      inFlight := inFlight[..k] + inFlight[k + 1..];
      if outcome.Returned? {
        distroDetails := outcome.value;
      }
      loadingDetails := false;
    }
  }

  /** The search box's onSelect is the page's handleSearchSelect: clicking result i
      selects its uri. */
  method ChooseSearchResult(app: App, bar: SearchControl.SearchBar, i: nat)
    requires app.Valid() && bar.Valid() && bar.ShowsDropdown() && i < |bar.results|
    modifies app, bar
    ensures app.Valid() && bar.Valid()
    ensures app.selectedUri == Some(old(bar.results[i].uri))
    ensures app.distroDetails == old(app.distroDetails) && app.graphData == old(app.graphData)
    ensures Some(old(bar.results[i].uri)) != old(app.selectedUri) && old(bar.results[i].uri) != "" ==>
              && app.inFlight == old(app.inFlight) + [DetailsLoad(old(bar.results[i].uri)), GraphLoad(Some(old(bar.results[i].uri)))]
              && app.loadingDetails
    ensures !(Some(old(bar.results[i].uri)) != old(app.selectedUri) && old(bar.results[i].uri) != "") ==>
              app.inFlight == old(app.inFlight) && app.loadingDetails == old(app.loadingDetails)
    ensures bar.query == old(bar.results[i].name) && !bar.isOpen
    ensures bar.results == old(bar.results) && bar.loading == old(bar.loading) && bar.inFlight == old(bar.inFlight)
    ensures bar.timer == if bar.query != old(bar.query) then Some(bar.query) else old(bar.timer)
  {
    var uri := bar.SelectResult(i);
    app.HandleSearchSelect(uri);
  }

  /** Nothing orders the settling of loads: after selecting a then b, a's details can
      settle last and be shown while b is selected. */
  method LateDetailsWin(a: string, b: string, da: DistroDetails, db: DistroDetails) returns (app: App)
    requires a != "" && b != "" && a != b
    ensures app.selectedUri == Some(b) && app.distroDetails == Some(da)
  {
    app := new App();
    app.HandleSearchSelect(a);
    app.HandleSearchSelect(b);
    assert app.inFlight == [GraphLoad(None), DetailsLoad(a), GraphLoad(Some(a)), DetailsLoad(b), GraphLoad(Some(b))];
    app.CompleteDetailsLoad(3, Returned(Some(db)));
    app.CompleteDetailsLoad(1, Returned(Some(da)));
  }
}
