/** Worked instances of the pipeline's behaviour on small concrete inputs. */
module Examples {
  import opened Wrappers
  import opened Seqs
  import opened Records
  import opened ShiftCounts
  import opened StableSort
  import opened Pagination
  import opened TopWorkplaces

  const SampleWorkplaces: seq<Workplace> :=
    [Workplace(1, "A", 0), Workplace(2, "B", 1), Workplace(3, "C", 0)]

  const SampleShifts: seq<Shift> :=
    [Shift(1, 1, Some(10)), Shift(2, 1, Some(11)), Shift(3, 3, None), Shift(4, 2, Some(20))]

  lemma SampleActive()
    ensures Active(SampleWorkplaces) == [Workplace(1, "A", 0), Workplace(3, "C", 0)]
  {
    var a, b, c := Workplace(1, "A", 0), Workplace(2, "B", 1), Workplace(3, "C", 0);
    assert SampleWorkplaces[1..] == [b, c] && [b, c][1..] == [c] && [c][1..] == [];
    assert Filter([c], IsActive) == [c];
    assert Filter([b, c], IsActive) == [c];
  }

  /** Workplace 1 has two shifts with a worker; workplace 3's one shift has none. */
  lemma SampleCounts()
    ensures CompletedAt(SampleShifts, 1) == 2
    ensures CompletedAt(SampleShifts, 3) == 0
  {
    var ss := SampleShifts;
    assert ss[1..][1..][1..][1..] == [];
  }

  lemma SampleCandidates()
    ensures Candidates(SampleWorkplaces, SampleShifts)
            == [WorkplaceShiftCount("A", 2), WorkplaceShiftCount("C", 0)]
  {
    SampleActive();
    SampleCounts();
  }

  /**
   Workplace 2 is inactive and workplace 3's only shift has no worker, so
   "A" is ranked with 2 completed shifts and "C" with 0.
   */
  lemma EndToEnd()
    ensures Rank(SampleWorkplaces, SampleShifts)
            == [WorkplaceShiftCount("A", 2), WorkplaceShiftCount("C", 0)]
  {
    SampleCandidates();
    AlreadySorted(WorkplaceShiftCount("A", 2), WorkplaceShiftCount("C", 0));
  }

  /** Two entries already in descending order stay as they are. */
  lemma AlreadySorted(x: WorkplaceShiftCount, y: WorkplaceShiftCount)
    requires x.shifts >= y.shifts
    ensures Sort([x, y]) == [x, y]
  {
    LargestStaysFirst(y, [], []);
    assert [y] + [] == [y];
    LargestStaysFirst(x, [y], [y]);
    assert [x] + [y] == [x, y];
  }

  /** An entry of count 3 in front of one of count 5 moves behind it. */
  lemma SmallerMovesBack(c: WorkplaceShiftCount, d: WorkplaceShiftCount)
    requires c.shifts < d.shifts
    ensures Sort([c, d]) == [d, c]
  {
    var none: seq<WorkplaceShiftCount> := [];
    SortCons(d, none);
    assert [d] + none == [d];
    InsertFront(d, none);
    SortCons(c, [d]);
    InsertPast(c, d, none);
    InsertFront(c, none);
    assert [c] + [d] == [c, d];
  }

  /** An entry no smaller than everything after it stays in front. */
  lemma LargestStaysFirst(x: WorkplaceShiftCount, s: seq<WorkplaceShiftCount>, sorted: seq<WorkplaceShiftCount>)
    requires Sort(s) == sorted
    requires sorted == [] || sorted[0].shifts <= x.shifts
    ensures Sort([x] + s) == [x] + sorted
  {
    SortCons(x, s);
    InsertFront(x, sorted);
  }

  /**
   Counts 5, 5, 3, 5 in fetch order: the three entries of count 5 are
   ranked first, in fetch order, and the entry of count 3 is cut off.
   */
  lemma TiesKeepFetchOrder(a: WorkplaceShiftCount, b: WorkplaceShiftCount, c: WorkplaceShiftCount, d: WorkplaceShiftCount)
    requires a.shifts == 5 && b.shifts == 5 && c.shifts == 3 && d.shifts == 5
    ensures Sort([a, b, c, d])[..TopCount] == [a, b, d]
  {
    SmallerMovesBack(c, d);
    LargestStaysFirst(b, [c, d], [d, c]);
    assert [b] + [c, d] == [b, c, d];
    LargestStaysFirst(a, [b, c, d], [b, d, c]);
    assert [a] + [b, c, d] == [a, b, c, d];
  }

  /** Three linked pages, the last one ending with an empty `next` link. */
  lemma ThreePages()
    ensures Walk(map["a" := Page([1, 2], Some("b")), "b" := Page([], Some("c")), "c" := Page([3], Some(""))], "a", {})
            == Fetched([1, 2, 3])
  {
    var server := map["a" := Page([1, 2], Some("b")), "b" := Page([], Some("c")), "c" := Page([3], Some(""))];
    assert NextLocator(server["a"]) == "b";
    assert NextLocator(server["b"]) == "c";
    assert NextLocator(server["c"]) == "";
    var v1: set<string> := {} + {"a"};
    var v2 := v1 + {"b"};
    var v3 := v2 + {"c"};
    assert "c" !in v2 && "b" !in v1;
    assert Walk(server, "", v3) == Fetched([]);
    assert Walk(server, "c", v2) == Fetched([3]);
    assert Walk(server, "b", v1) == Fetched([3]);
    assert Walk(server, "a", {}) == Fetched([1, 2] + [3]);
  }
}
