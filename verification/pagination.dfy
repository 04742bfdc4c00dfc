/**
 The cursor-linked pagination loop shared by `fetchAllWorkplaces` and
 `fetchAllShifts`: request a locator, append the page's `data`, follow
 `links.next`, and stop when that link is absent or empty.

 The HTTP service is modelled as a fixed map from locator to response page.
 A locator the map does not answer is a request that fails. The service is
 deterministic, so a loop that requests a locator for the second time would
 request the same pages forever; the model reports that as `Endless`
 instead of diverging.
 */
module Pagination {
  import opened Wrappers

  /** One response body: `{ data: T[], links: { next?: string } }`. */
  datatype Page<T> = Page(data: seq<T>, next: Option<string>)

  /** The paginated resource: the page each locator answers with. */
  type Server<T> = map<string, Page<T>>

  /** One successful request of the loop and the page it returned. */
  datatype Fetch<T> = Fetch(locator: string, page: Page<T>)

  /** How a traversal ends. */
  datatype FetchResult<T> =
    | Fetched(items: seq<T>)
    | RequestFailed(locator: string)
    | Endless(locator: string)
  {
    /** The locator held by the loop when it stopped ("" after the last page). */
    function Stop(): string
    {
      match this
      case Fetched(_) => ""
      case RequestFailed(l) => l
      case Endless(l) => l
    }
  }

  /** The `links.next || ''` step: both an absent link and "" mean "stop". */
  function NextLocator<T>(p: Page<T>): (l: string)
    ensures l == "" <==> p.next == None || p.next == Some("")
    ensures l != "" ==> p.next == Some(l)
  {
    match p.next
    case None => ""
    case Some(u) => u
  }

  /** Puts the items of earlier pages in front of a traversal's outcome. */
  function Prepend<T>(prefix: seq<T>, r: FetchResult<T>): FetchResult<T>
  {
    match r
    case Fetched(items) => Fetched(prefix + items)
    case _ => r
  }

  /**
   The traversal from locator `loc`, where `visited` holds the locators
   already requested. It is the reference definition that `FetchAll` meets.
   */
  function Walk<T>(server: Server<T>, loc: string, visited: set<string>): (r: FetchResult<T>)
    ensures r.RequestFailed? ==> r.locator != "" && r.locator !in server
    ensures r.Endless? ==> r.locator != "" && r.locator in server
    decreases server.Keys - visited
  {
    if loc == "" then Fetched([])
    else if loc !in server then RequestFailed(loc)
    else if loc in visited then Endless(loc)
    else Prepend(server[loc].data, Walk(server, NextLocator(server[loc]), visited + {loc}))
  }

  /**
   `trace` is the run of successful requests that starts by requesting
   `loc`, each request made with the `next` link of the page before it, and
   after which the loop holds locator `last`.
   */
  ghost predicate Leads<T>(server: Server<T>, loc: string, trace: seq<Fetch<T>>, last: string)
    decreases |trace|
  {
    if trace == [] then loc == last
    else
      && loc != ""
      && loc in server
      && trace[0] == Fetch(loc, server[loc])
      && Leads(server, NextLocator(server[loc]), trace[1..], last)
  }

  /** A locator at which the loop stops: the empty one, or one whose request fails. */
  predicate Terminal<T>(server: Server<T>, last: string)
  {
    last == "" || last !in server
  }

  /** The pages' items concatenated in fetch order. */
  function Collect<T>(trace: seq<Fetch<T>>): seq<T>
    decreases |trace|
  {
    if trace == [] then [] else trace[0].page.data + Collect(trace[1..])
  }

  function Locators<T>(trace: seq<Fetch<T>>): set<string>
  {
    set i | 0 <= i < |trace| :: trace[i].locator
  }

  ghost predicate Distinct<T>(trace: seq<Fetch<T>>)
  {
    forall i, j :: 0 <= i < j < |trace| ==> trace[i].locator != trace[j].locator
  }

  /** What the loop returns after the requests of `trace` when it stops at terminal `last`. */
  function Outcome<T>(trace: seq<Fetch<T>>, last: string): FetchResult<T>
  {
    if last == "" then Fetched(Collect(trace)) else RequestFailed(last)
  }

  /** Every suffix of a run is the run from the locator requested at its start. */
  lemma {:induction false} LeadsSuffix<T>(server: Server<T>, loc: string, trace: seq<Fetch<T>>, last: string, i: nat)
    requires Leads(server, loc, trace, last)
    requires i < |trace|
    ensures Leads(server, trace[i].locator, trace[i..], last)
    decreases i
  {
    if i > 0 {
      LeadsSuffix(server, NextLocator(server[loc]), trace[1..], last, i - 1);
      assert trace[1..][i - 1..] == trace[i..];
    }
  }

  /** Runs from the same locator agree: the shorter one is a prefix of the longer one. */
  lemma {:induction false} LeadsDeterministic<T>(server: Server<T>, loc: string,
                                                  t1: seq<Fetch<T>>, last1: string,
                                                  t2: seq<Fetch<T>>, last2: string)
    requires Leads(server, loc, t1, last1)
    requires Leads(server, loc, t2, last2)
    requires |t1| <= |t2|
    ensures t2[..|t1|] == t1
    ensures Leads(server, last1, t2[|t1|..], last2)
    decreases |t1|
  {
    if t1 != [] {
      var next := NextLocator(server[loc]);
      LeadsDeterministic(server, next, t1[1..], last1, t2[1..], last2);
      assert t2[1..][..|t1| - 1] == t2[1..|t1|];
      assert t2[..|t1|] == [t2[0]] + t2[1..|t1|];
      assert t1 == [t1[0]] + t1[1..];
      assert t2[1..][|t1| - 1..] == t2[|t1|..];
    }
  }

  /** Two runs from the same locator that both stop at terminal `last` are the same run. */
  lemma RunsToTerminalAgree<T>(server: Server<T>, loc: string, t1: seq<Fetch<T>>, t2: seq<Fetch<T>>, last: string)
    requires Leads(server, loc, t1, last)
    requires Leads(server, loc, t2, last)
    requires Terminal(server, last)
    ensures t1 == t2
  {
    if |t1| <= |t2| {
      LeadsDeterministic(server, loc, t1, last, t2, last);
      assert t2[|t1|..] == [];
      assert t2 == t2[..|t1|] + t2[|t1|..];
    } else {
      LeadsDeterministic(server, loc, t2, last, t1, last);
      assert false;
    }
  }

  /** A run that reaches a terminal locator never requests a locator twice. */
  lemma LeadsDistinct<T>(server: Server<T>, loc: string, trace: seq<Fetch<T>>, last: string)
    requires Leads(server, loc, trace, last)
    requires Terminal(server, last)
    ensures Distinct(trace)
  {
    forall i, j | 0 <= i < j < |trace|
      ensures trace[i].locator != trace[j].locator
    {
      LeadsSuffix(server, loc, trace, last, i);
      LeadsSuffix(server, loc, trace, last, j);
      if trace[i].locator == trace[j].locator {
        RunsToTerminalAgree(server, trace[i].locator, trace[i..], trace[j..], last);
        assert false;
      }
    }
  }

  /** Completeness: a run ending at a terminal locator is exactly what `Walk` follows. */
  lemma {:induction false} WalkFollowsRun<T>(server: Server<T>, loc: string, visited: set<string>,
                                              trace: seq<Fetch<T>>, last: string)
    requires Leads(server, loc, trace, last)
    requires Terminal(server, last)
    requires Distinct(trace)
    requires Locators(trace) !! visited
    ensures Walk(server, loc, visited) == Outcome(trace, last)
    decreases |trace|
  {
    if trace != [] {
      var rest := trace[1..];
      assert trace[0].locator == loc;
      assert loc !in visited by {
        assert loc in Locators(trace);
      }
      assert Locators(rest) !! visited + {loc} by {
        forall i | 0 <= i < |rest|
          ensures rest[i].locator !in visited + {loc}
        {
          assert rest[i] == trace[i + 1];
          assert trace[i + 1].locator in Locators(trace);
        }
      }
      WalkFollowsRun(server, NextLocator(server[loc]), visited + {loc}, rest, last);
    }
  }

  /**
   `trace` explains outcome `r` of a traversal from `loc` that had already
   requested `visited`: the run leads to where the loop stopped, a fetched
   traversal holds the run's items, and an endless one stopped at a
   locator that was already requested.
   */
  ghost predicate Explains<T>(server: Server<T>, loc: string, visited: set<string>,
                              r: FetchResult<T>, trace: seq<Fetch<T>>)
  {
    && Leads(server, loc, trace, r.Stop())
    && (r.Fetched? ==> r.items == Collect(trace))
    && (r.Endless? ==> r.locator in visited + Locators(trace))
  }

  /** Soundness: whatever `Walk` returns is explained by a run of requests from `loc`. */
  lemma {:induction false} WalkHasRun<T>(server: Server<T>, loc: string, visited: set<string>)
    ensures exists trace :: Explains(server, loc, visited, Walk(server, loc, visited), trace)
    decreases server.Keys - visited
  {
    var r := Walk(server, loc, visited);
    if loc == "" || loc !in server || loc in visited {
      var none: seq<Fetch<T>> := [];
      assert Explains(server, loc, visited, r, none);
    } else {
      var page := server[loc];
      var next := NextLocator(page);
      var visited' := visited + {loc};
      var r' := Walk(server, next, visited');
      WalkHasRun(server, next, visited');
      var t: seq<Fetch<T>> :| Explains(server, next, visited', r', t);
      var trace := [Fetch(loc, page)] + t;
      assert trace[1..] == t;
      assert Collect(trace) == page.data + Collect(t);
      assert Locators(trace) == {loc} + Locators(t) by {
        forall l | l in Locators(t) ensures l in Locators(trace) {
          var i :| 0 <= i < |t| && t[i].locator == l;
          assert trace[i + 1] == t[i];
        }
        forall l | l in Locators(trace) ensures l in {loc} + Locators(t) {
          var i :| 0 <= i < |trace| && trace[i].locator == l;
          if i > 0 { assert t[i - 1] == trace[i]; }
        }
      }
      assert Explains(server, loc, visited, r, trace);
    }
  }

  /**
   The `while (nextUrl)` loop: it requests each locator in turn and pushes
   the page's items onto the accumulator. Its result is the reference
   traversal, which is characterised by the runs of requests from `start`:
   the items are those of the one complete run, in fetch order, whenever
   such a run exists; otherwise the loop stops at a failing request or
   would never stop.
   */
  method FetchAll<T>(server: Server<T>, start: string) returns (r: FetchResult<T>)
    ensures r == Walk(server, start, {})
    ensures forall trace, last :: Leads(server, start, trace, last) && Terminal(server, last) ==>
              r == Outcome(trace, last)
    ensures exists trace :: Explains(server, start, {}, r, trace)
  {
    var items: seq<T> := [];
    var loc := start;
    var visited: set<string> := {};
    while loc != ""
      invariant Walk(server, start, {}) == Prepend(items, Walk(server, loc, visited))
      decreases server.Keys - visited
    {
      if loc !in server {
        r := RequestFailed(loc);
        break;
      }
      if loc in visited {
        r := Endless(loc);
        break;
      }
      var page := server[loc];
      items := items + page.data;
      visited := visited + {loc};
      loc := NextLocator(page);
    }
    if loc == "" {
      r := Fetched(items);
    }
    RunsOfFetchAll(server, start);
  }

  /** The run-based characterisation of the traversal from `start`, as `FetchAll` states it. */
  lemma RunsOfFetchAll<T>(server: Server<T>, start: string)
    ensures forall trace, last :: Leads(server, start, trace, last) && Terminal(server, last) ==>
              Walk(server, start, {}) == Outcome(trace, last)
    ensures exists trace :: Explains(server, start, {}, Walk(server, start, {}), trace)
  {
    forall trace, last | Leads(server, start, trace, last) && Terminal(server, last)
      ensures Walk(server, start, {}) == Outcome(trace, last)
    {
      LeadsDistinct(server, start, trace, last);
      WalkFollowsRun(server, start, {}, trace, last);
    }
    WalkHasRun(server, start, {});
  }

  /** A single empty page with no usable `next` link yields no items and no error. */
  lemma EmptySinglePage<T>(server: Server<T>, start: string)
    requires start != "" && start in server
    requires server[start].data == []
    requires server[start].next == None || server[start].next == Some("")
    ensures Walk(server, start, {}) == Fetched([])
  {
  }
}
