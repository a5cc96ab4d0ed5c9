/** The search box (frontend/components/SearchBar.tsx): the typed query, the results on
    show, the spinner flag and whether the dropdown is open. Typing restarts a debounce
    timer; when it fires, a search is issued, and its reply may settle at any later
    point, in any order with other replies. */
module SearchControl {
  import opened Types
  import Client

  class SearchBar {
    var query: string
    var results: seq<SearchResult>
    var loading: bool
    var isOpen: bool
    /** The pending debounce timer, holding the query it was scheduled for. */
    var timer: Option<string>
    /** Searches issued and not yet settled, by query, in issue order. */
    var inFlight: seq<string>

    /** At most one search is scheduled, always for the current query; the spinner only
        shows while a search is out; only queries of two or more code units are sent. */
    ghost predicate Valid()
      reads this
    {
      && (timer.Some? ==> timer.value == query)
      && (loading ==> |inFlight| > 0)
      && (forall k :: 0 <= k < |inFlight| ==> Client.Utf16Length(inFlight[k]) >= 2)
    }

    /** First render: everything empty and closed, and the query effect schedules a
        search for the empty query. */
    constructor()
      ensures Valid()
      ensures query == "" && results == [] && !loading && !isOpen
      ensures timer == Some("") && inFlight == []
    {
      query := "";
      results := [];
      loading := false;
      isOpen := false;
      timer := Some("");
      inFlight := [];
    }

    /** The dropdown lists the results exactly when it is open and there are results. */
    predicate ShowsDropdown()
      reads this
    {
      isOpen && |results| > 0
    }

    /** The query changed: the effect's cleanup clears the pending timer and a new one is
        scheduled for the new query. React skips the effect when the value is unchanged. */
    method SetQuery(value: string)
      requires Valid()
      modifies this
      ensures Valid()
      ensures query == value
      ensures timer == if value != old(query) then Some(value) else old(timer)
      ensures results == old(results) && loading == old(loading) && isOpen == old(isOpen)
      ensures inFlight == old(inFlight)
    {
      if value != query {
        timer := Some(value);
      }
      query := value;
    }

    /** Typing: the query takes the input's value and the dropdown opens. */
    method OnChange(value: string)
      requires Valid()
      modifies this
      ensures Valid()
      ensures query == value && isOpen
      ensures timer == if value != old(query) then Some(value) else old(timer)
      ensures results == old(results) && loading == old(loading) && inFlight == old(inFlight)
      ensures ShowsDropdown() <==> results != []
    {
      SetQuery(value);
      isOpen := true;
    }

    /** Focusing the input opens the dropdown and changes nothing else. */
    method OnFocus()
      requires Valid()
      modifies this
      ensures Valid()
      ensures isOpen
      ensures query == old(query) && results == old(results) && loading == old(loading)
      ensures timer == old(timer) && inFlight == old(inFlight)
    {
      isOpen := true;
    }

    /** The timer fires (fetchResults): a short query clears the results without a
        search and leaves the spinner alone; a longer one turns the spinner on and
        issues the search. */
    method FireTimer()
      requires Valid() && timer.Some?
      modifies this
      ensures Valid()
      ensures timer == None
      ensures query == old(query) && isOpen == old(isOpen)
      ensures Client.Utf16Length(query) < 2 ==>
                results == [] && loading == old(loading) && inFlight == old(inFlight)
      ensures Client.Utf16Length(query) >= 2 ==>
                loading && results == old(results) && inFlight == old(inFlight) + [query]
    {
      var q := timer.value;
      timer := None;
      if Client.Utf16Length(q) < 2 {
        results := [];
        return;
      }
      loading := true;
      inFlight := inFlight + [q];
    }

    /** Search k settles: a returned list replaces the results (no check that it is
        for the current query), a throw leaves them, and the spinner goes off either way. */
    method CompleteSearch(k: nat, outcome: Settled<seq<SearchResult>>)
      requires Valid() && k < |inFlight|
      modifies this
      ensures Valid()
      ensures inFlight == old(inFlight[..k] + inFlight[k + 1..])
      ensures results == if outcome.Returned? then outcome.value else old(results)
      ensures !loading
      ensures query == old(query) && isOpen == old(isOpen) && timer == old(timer)
    {
      ghost var before := inFlight;
      inFlight := inFlight[..k] + inFlight[k + 1..];
      forall m | 0 <= m < |inFlight|
        ensures Client.Utf16Length(inFlight[m]) >= 2
      {
        if m < k {
          assert inFlight[m] == before[m];
        } else {
          assert inFlight[m] == before[m + 1];
        }
      }
      if outcome.Returned? {
        results := outcome.value;
      }
      loading := false;
    }

    /** Clicking result i reports its uri, puts its name in the box and closes the
        dropdown; the results stay. */
    method SelectResult(i: nat) returns (uri: string)
      requires Valid() && ShowsDropdown() && i < |results|
      modifies this
      ensures Valid()
      ensures uri == old(results[i].uri)
      ensures query == old(results[i].name) && !isOpen && !ShowsDropdown()
      ensures results == old(results) && loading == old(loading) && inFlight == old(inFlight)
      ensures timer == if query != old(query) then Some(query) else old(timer)
    {
      uri := results[i].uri;
      SetQuery(results[i].name);
      isOpen := false;
    }

    /** A mousedown on the document: outside the box it closes the dropdown, inside it
        changes nothing. */
    method MouseDown(inside: bool)
      requires Valid()
      modifies this
      ensures Valid()
      ensures isOpen == (old(isOpen) && inside)
      ensures !inside ==> !ShowsDropdown()
      ensures query == old(query) && results == old(results) && loading == old(loading)
      ensures timer == old(timer) && inFlight == old(inFlight)
    {
      if !inside {
        isOpen := false;
      }
    }
  }

  /** Nothing ties a reply to the query it was for: after searching q1 and then q2, the
      reply for q1 can settle last and its results are shown under q2. */
  method LateResultsWin(q1: string, q2: string, r1: seq<SearchResult>, r2: seq<SearchResult>) returns (bar: SearchBar)
    requires Client.Utf16Length(q1) >= 2 && Client.Utf16Length(q2) >= 2 && q1 != q2
    ensures bar.query == q2 && bar.results == r1 && !bar.loading
  {
    bar := new SearchBar();
    bar.OnChange(q1);
    bar.FireTimer();
    bar.OnChange(q2);
    bar.FireTimer();
    assert bar.inFlight == [q1, q2];
    bar.CompleteSearch(1, Returned(r2));
    bar.CompleteSearch(0, Returned(r1));
  }
}
