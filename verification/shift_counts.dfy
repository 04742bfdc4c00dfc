/**
 The per-workplace tally of completed shifts: the `Map<number, number>`
 the script fills by walking the completed shifts in order.
 */
module ShiftCounts {
  import opened Seqs
  import opened Records

  type Counts = map<int, nat>

  /**
   `shiftCounts.get(id) || 0`: a workplace absent from the tally has count 0.
   In a tally without zero entries, 0 means exactly that `id` is absent.
   */
  function GetOrZero(counts: Counts, id: int): (n: nat)
    ensures id in counts ==> n == counts[id]
    ensures Positive(counts) ==> (n == 0 <==> id !in counts)
  {
    if id in counts then counts[id] else 0
  }

  /** Only workplaces with at least one shift are keys of a tally. */
  ghost predicate Positive(counts: Counts)
  {
    forall id :: id in counts ==> counts[id] >= 1
  }

  /** `shiftCounts.set(id, currentCount + 1)`: one more shift at `id`, nothing else changes. */
  function Bump(counts: Counts, id: int): (r: Counts)
    ensures GetOrZero(r, id) == GetOrZero(counts, id) + 1
    ensures forall other :: other != id ==> GetOrZero(r, other) == GetOrZero(counts, other)
    ensures Positive(counts) ==> Positive(r)
  {
    counts[id := GetOrZero(counts, id) + 1]
  }

  /** The `forEach` over the shifts, bumping each shift's workplace. */
  function Tally(counts: Counts, shifts: seq<Shift>): (r: Counts)
    ensures Positive(counts) ==> Positive(r)
    decreases |shifts|
  {
    if shifts == [] then counts else Tally(Bump(counts, shifts[0].workplaceId), shifts[1..])
  }

  /**
   Reference count: the number of shifts in `shifts` that have a worker and
   belong to workplace `id`.
   */
  function CompletedAt(shifts: seq<Shift>, id: int): (n: nat)
    ensures n <= |shifts|
    ensures n == 0 <==> forall s :: s in shifts ==> !(IsCompleted(s) && s.workplaceId == id)
    decreases |shifts|
  {
    if shifts == [] then 0
    else (if IsCompleted(shifts[0]) && shifts[0].workplaceId == id then 1 else 0) + CompletedAt(shifts[1..], id)
  }

  /** Tallying the completed shifts adds exactly their number at each workplace. */
  lemma {:induction false} TallyCompleted(counts: Counts, shifts: seq<Shift>, id: int)
    ensures GetOrZero(Tally(counts, Filter(shifts, IsCompleted)), id) == GetOrZero(counts, id) + CompletedAt(shifts, id)
    decreases |shifts|
  {
    if shifts != [] {
      var s := shifts[0];
      var rest := Filter(shifts[1..], IsCompleted);
      if IsCompleted(s) {
        assert Filter(shifts, IsCompleted) == [s] + rest;
        assert ([s] + rest)[1..] == rest;
        TallyCompleted(Bump(counts, s.workplaceId), shifts[1..], id);
      } else {
        assert Filter(shifts, IsCompleted) == rest;
        TallyCompleted(counts, shifts[1..], id);
      }
    }
  }

  /**
   The tally built from the completed shifts holds, for every workplace id,
   the reference count, and has no key whose count is 0: shifts without a
   worker add to no count.
   */
  function CountCompleted(shifts: seq<Shift>): (r: Counts)
    ensures forall id :: GetOrZero(r, id) == CompletedAt(shifts, id)
    ensures forall id :: id in r <==> CompletedAt(shifts, id) > 0
  {
    var counts := Tally(map[], Filter(shifts, IsCompleted));
    assert forall id :: GetOrZero(counts, id) == CompletedAt(shifts, id) by {
      forall id ensures GetOrZero(counts, id) == CompletedAt(shifts, id) {
        TallyCompleted(map[], shifts, id);
      }
    }
    counts
  }

  /** Shifts without a worker never change any count. */
  lemma {:induction false} UnassignedShiftsAddNothing(shifts: seq<Shift>, id: int)
    ensures CompletedAt(Filter(shifts, IsCompleted), id) == CompletedAt(shifts, id)
    decreases |shifts|
  {
    if shifts != [] {
      var rest := Filter(shifts[1..], IsCompleted);
      UnassignedShiftsAddNothing(shifts[1..], id);
      if IsCompleted(shifts[0]) {
        assert Filter(shifts, IsCompleted) == [shifts[0]] + rest;
        assert ([shifts[0]] + rest)[1..] == rest;
      } else {
        assert Filter(shifts, IsCompleted) == rest;
      }
    }
  }
}
