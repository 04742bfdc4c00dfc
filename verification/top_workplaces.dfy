/**
 `getTopWorkplaces`: keep the active workplaces, count each one's completed
 shifts, rank them by that count (largest first, ties in fetch order) and
 keep the first three. `GetTopWorkplaces` puts the two paginated fetches in
 front of the ranking.
 */
module TopWorkplaces {
  import opened Seqs
  import opened Records
  import opened ShiftCounts
  import opened StableSort
  import opened Pagination

  /** The `.slice(0, 3)`: how many entries are reported. */
  const TopCount: nat := 3

  /** `workplaces.filter(workplace => workplace.status === 0)`. */
  function Active(workplaces: seq<Workplace>): (r: seq<Workplace>)
    ensures forall w :: w in r <==> w in workplaces && w.status == 0
  {
    Filter(workplaces, IsActive)
  }

  /**
   Every active workplace stays in the list as often as it was fetched, and
   no inactive one is left.
   */
  lemma ActiveMultiplicity(workplaces: seq<Workplace>)
    ensures forall w :: multiset(Active(workplaces))[w] == if w.status == 0 then multiset(workplaces)[w] else 0
  {
    FilterMultiplicity(workplaces, IsActive);
  }

  /**
   The mapped active list, before sorting: one entry per active workplace,
   in fetch order, whose count is the workplace's number of completed
   shifts (0 when it has none).
   */
  function Candidates(workplaces: seq<Workplace>, shifts: seq<Shift>): (r: seq<WorkplaceShiftCount>)
    ensures |r| == |Active(workplaces)|
    ensures forall i :: 0 <= i < |r| ==>
              r[i] == WorkplaceShiftCount(Active(workplaces)[i].name, CompletedAt(shifts, Active(workplaces)[i].id))
  {
    var counts := CountCompleted(shifts);
    var active := Active(workplaces);
    seq(|active|, i requires 0 <= i < |active| =>
      WorkplaceShiftCount(active[i].name, GetOrZero(counts, active[i].id)))
  }

  /**
   The ranking: the first `TopCount` entries of the candidates sorted by
   count, largest first.
   - There are `min(3, #active workplaces)` of them.
   - Each is an active workplace's name with that workplace's number of
     completed shifts.
   - They are in non-increasing order of count.
   - The entries of any one count are the first ones of that count among the
     candidates, in the candidates' order (stability).
   - They are taken from the candidates, and every candidate left out has a
     count no larger than any reported one.
   */
  function Rank(workplaces: seq<Workplace>, shifts: seq<Shift>): (r: seq<WorkplaceShiftCount>)
    ensures |r| == Min(TopCount, |Active(workplaces)|)
    ensures forall e :: e in r ==>
              exists w :: w in workplaces && IsActive(w) && e == WorkplaceShiftCount(w.name, CompletedAt(shifts, w.id))
    ensures NonIncreasing(r)
    ensures forall k :: WithCount(r, k) <= WithCount(Candidates(workplaces, shifts), k)
    ensures multiset(r) <= multiset(Candidates(workplaces, shifts))
    ensures forall e :: e in multiset(Candidates(workplaces, shifts)) - multiset(r) ==>
              forall j :: 0 <= j < |r| ==> e.shifts <= r[j].shifts
  {
    var candidates := Candidates(workplaces, shifts);
    var sorted := Sort(candidates);
    var top := sorted[..Min(TopCount, |sorted|)];
    RankFacts(workplaces, shifts, candidates, sorted, top);
    top
  }

  /** The facts `Rank` states, about the sorted candidates and their first entries. */
  lemma RankFacts(workplaces: seq<Workplace>, shifts: seq<Shift>,
                  candidates: seq<WorkplaceShiftCount>, sorted: seq<WorkplaceShiftCount>, top: seq<WorkplaceShiftCount>)
    requires candidates == Candidates(workplaces, shifts)
    requires sorted == Sort(candidates)
    requires top == sorted[..Min(TopCount, |sorted|)]
    ensures |top| == Min(TopCount, |Active(workplaces)|)
    ensures forall e :: e in top ==>
              exists w :: w in workplaces && IsActive(w) && e == WorkplaceShiftCount(w.name, CompletedAt(shifts, w.id))
    ensures NonIncreasing(top)
    ensures forall k :: WithCount(top, k) <= WithCount(candidates, k)
    ensures multiset(top) <= multiset(candidates)
    ensures forall e :: e in multiset(candidates) - multiset(top) ==>
              forall j :: 0 <= j < |top| ==> e.shifts <= top[j].shifts
  {
    SortPermutes(candidates);
    assert |multiset(sorted)| == |multiset(candidates)|;
    assert |sorted| == |candidates|;
    PrefixOfSorted(sorted, |top|);
    forall e | e in top
      ensures exists w :: w in workplaces && IsActive(w) && e == WorkplaceShiftCount(w.name, CompletedAt(shifts, w.id))
    {
      assert e in multiset(top);
      CandidateOrigin(workplaces, shifts, e);
    }
  }

  /** Every candidate entry is an active workplace's name with its completed-shift count. */
  lemma CandidateOrigin(workplaces: seq<Workplace>, shifts: seq<Shift>, e: WorkplaceShiftCount)
    requires e in multiset(Candidates(workplaces, shifts))
    ensures exists w :: w in workplaces && IsActive(w) && e == WorkplaceShiftCount(w.name, CompletedAt(shifts, w.id))
  {
    var candidates := Candidates(workplaces, shifts);
    assert e in candidates;
    var i :| 0 <= i < |candidates| && candidates[i] == e;
    var w := Active(workplaces)[i];
    assert w in Active(workplaces);
  }

  /**
   The first `n` entries of a descending sequence: still descending, the
   first ones of each count, and no smaller than anything left behind.
   */
  lemma PrefixOfSorted(sorted: seq<WorkplaceShiftCount>, n: nat)
    requires NonIncreasing(sorted)
    requires n <= |sorted|
    ensures NonIncreasing(sorted[..n])
    ensures forall k :: WithCount(sorted[..n], k) <= WithCount(sorted, k)
    ensures multiset(sorted) == multiset(sorted[..n]) + multiset(sorted[n..])
    ensures forall e :: e in multiset(sorted) - multiset(sorted[..n]) ==>
              forall j :: 0 <= j < n ==> e.shifts <= sorted[..n][j].shifts
  {
    var top := sorted[..n];
    var dropped := sorted[n..];
    assert sorted == top + dropped;
    forall k ensures WithCount(top, k) <= WithCount(sorted, k) {
      WithCountAppend(top, dropped, k);
    }
    forall e | e in multiset(sorted) - multiset(top)
      ensures forall j :: 0 <= j < n ==> e.shifts <= top[j].shifts
    {
      assert e in multiset(dropped);
      var i :| 0 <= i < |dropped| && dropped[i] == e;
      assert sorted[n + i] == e;
      forall j | 0 <= j < n ensures e.shifts <= top[j].shifts {
        assert top[j] == sorted[j];
      }
    }
  }

  /**
   The ranking agrees with every stable descending sort of the candidates,
   so the choice of a stable sort algorithm does not matter.
   */
  lemma RankIsAnyStableSortTop(workplaces: seq<Workplace>, shifts: seq<Shift>, sorted: seq<WorkplaceShiftCount>)
    requires NonIncreasing(sorted)
    requires forall k :: WithCount(sorted, k) == WithCount(Candidates(workplaces, shifts), k)
    ensures Rank(workplaces, shifts) == sorted[..Min(TopCount, |sorted|)]
  {
    StableSortIsUnique(Candidates(workplaces, shifts), sorted);
  }

  /** Every active workplace has its candidate entry, even with zero completed shifts. */
  lemma ActiveNeverDropped(workplaces: seq<Workplace>, shifts: seq<Shift>, w: Workplace)
    requires w in workplaces && IsActive(w)
    ensures WorkplaceShiftCount(w.name, CompletedAt(shifts, w.id)) in Candidates(workplaces, shifts)
  {
    assert w in Active(workplaces);
    var i :| 0 <= i < |Active(workplaces)| && Active(workplaces)[i] == w;
    assert Candidates(workplaces, shifts)[i] == WorkplaceShiftCount(w.name, CompletedAt(shifts, w.id));
  }

  /** An active workplace without completed shifts is ranked with count 0. */
  lemma ZeroDefault(workplaces: seq<Workplace>, shifts: seq<Shift>, w: Workplace)
    requires w in workplaces && IsActive(w)
    requires forall s :: s in shifts && s.workplaceId == w.id ==> !IsCompleted(s)
    ensures WorkplaceShiftCount(w.name, 0) in Candidates(workplaces, shifts)
  {
    ActiveNeverDropped(workplaces, shifts, w);
  }

  /** The ranking depends on the shifts only through the completed-shift counts. */
  lemma RankDependsOnCounts(workplaces: seq<Workplace>, shifts1: seq<Shift>, shifts2: seq<Shift>)
    requires forall id :: CompletedAt(shifts1, id) == CompletedAt(shifts2, id)
    ensures Rank(workplaces, shifts1) == Rank(workplaces, shifts2)
  {
    assert Candidates(workplaces, shifts1) == Candidates(workplaces, shifts2);
  }

  /** Dropping every shift without a worker leaves the ranking unchanged. */
  lemma OnlyCompletedShiftsMatter(workplaces: seq<Workplace>, shifts: seq<Shift>)
    ensures Rank(workplaces, shifts) == Rank(workplaces, Filter(shifts, IsCompleted))
  {
    forall id ensures CompletedAt(shifts, id) == CompletedAt(Filter(shifts, IsCompleted), id) {
      UnassignedShiftsAddNothing(shifts, id);
    }
    RankDependsOnCounts(workplaces, shifts, Filter(shifts, IsCompleted));
  }

  /** Dropping every inactive workplace leaves the ranking unchanged. */
  lemma OnlyActiveWorkplacesMatter(workplaces: seq<Workplace>, shifts: seq<Shift>)
    ensures Rank(workplaces, shifts) == Rank(Active(workplaces), shifts)
  {
    FilterIdempotent(workplaces, IsActive);
  }

  /**
   An inactive workplace, wherever it sits in the fetched list and whatever
   its shifts, changes nothing in the ranking.
   */
  lemma InactiveWorkplaceIgnored(before: seq<Workplace>, w: Workplace, after: seq<Workplace>, shifts: seq<Shift>)
    requires !IsActive(w)
    ensures Rank(before + [w] + after, shifts) == Rank(before + after, shifts)
  {
    FilterAppend(before + [w], after, IsActive);
    FilterAppend(before, [w], IsActive);
    FilterAppend(before, after, IsActive);
    assert Filter([w], IsActive) == [];
    assert Active(before + [w] + after) == Active(before + after);
  }

  /** How a run of the script ends. */
  datatype Report =
    | Top(entries: seq<WorkplaceShiftCount>)
    | Failed(locator: string)
    | Hangs

  /**
   Fetch all workplaces and all shifts, then rank. A failed request of
   either traversal makes the whole run fail with no partial result; the run
   only hangs when neither fails and one would never end.
   */
  method GetTopWorkplaces(workplaceServer: Server<Workplace>, workplacesStart: string,
                          shiftServer: Server<Shift>, shiftsStart: string) returns (report: Report)
    ensures report.Top? <==>
              Walk(workplaceServer, workplacesStart, {}).Fetched? && Walk(shiftServer, shiftsStart, {}).Fetched?
    ensures report.Top? ==>
              report.entries == Rank(Walk(workplaceServer, workplacesStart, {}).items,
                                     Walk(shiftServer, shiftsStart, {}).items)
    ensures report.Failed? <==>
              Walk(workplaceServer, workplacesStart, {}).RequestFailed? || Walk(shiftServer, shiftsStart, {}).RequestFailed?
    ensures report.Failed? && Walk(workplaceServer, workplacesStart, {}).RequestFailed? ==>
              report.locator == Walk(workplaceServer, workplacesStart, {}).locator
    ensures report.Failed? && !Walk(workplaceServer, workplacesStart, {}).RequestFailed? ==>
              report.locator == Walk(shiftServer, shiftsStart, {}).locator
  {
    var workplaces := FetchAll(workplaceServer, workplacesStart);
    var shifts := FetchAll(shiftServer, shiftsStart);
    if workplaces.RequestFailed? {
      report := Failed(workplaces.locator);
    } else if shifts.RequestFailed? {
      report := Failed(shifts.locator);
    } else if workplaces.Endless? || shifts.Endless? {
      report := Hangs;
    } else {
      report := Top(Rank(workplaces.items, shifts.items));
    }
  }
}
