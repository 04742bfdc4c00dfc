/**
 `.sort((a, b) => b.shifts - a.shifts)`: ordering entries by shift count,
 largest first. `Array.prototype.sort` is stable (section 22.1.3.27 of
 ECMA-262, 2019 edition, and onwards), so entries with equal counts keep their
 relative order. The model is an insertion sort on sequences, and
 `StableSortIsUnique` shows that every stable descending sort returns the
 same sequence it does.
 */
module StableSort {
  import opened Records

  /** Shift counts never increase from left to right. */
  ghost predicate NonIncreasing(s: seq<WorkplaceShiftCount>)
  {
    forall i, j :: 0 <= i < j < |s| ==> s[i].shifts >= s[j].shifts
  }

  /** The entries of `s` with count `k`, in their order in `s`. */
  function WithCount(s: seq<WorkplaceShiftCount>, k: nat): seq<WorkplaceShiftCount>
    decreases |s|
  {
    if s == [] then [] else (if s[0].shifts == k then [s[0]] else []) + WithCount(s[1..], k)
  }

  /** `WithCount(s, k)` holds exactly the entries of `s` whose count is `k`. */
  lemma {:induction false} WithCountMembers(s: seq<WorkplaceShiftCount>, k: nat, e: WorkplaceShiftCount)
    ensures e in WithCount(s, k) <==> e in s && e.shifts == k
    decreases |s|
  {
    if s != [] {
      WithCountMembers(s[1..], k, e);
      assert s == [s[0]] + s[1..];
    }
  }

  lemma WithCountCons(x: WorkplaceShiftCount, s: seq<WorkplaceShiftCount>, k: nat)
    ensures WithCount([x] + s, k) == (if x.shifts == k then [x] else []) + WithCount(s, k)
  {
    assert ([x] + s)[1..] == s;
  }

  /** Sequences that agree on every count still agree with the same entry in front. */
  lemma ConsAgrees(x: WorkplaceShiftCount, a: seq<WorkplaceShiftCount>, b: seq<WorkplaceShiftCount>)
    requires forall k :: WithCount(a, k) == WithCount(b, k)
    ensures forall k :: WithCount([x] + a, k) == WithCount([x] + b, k)
  {
    forall k ensures WithCount([x] + a, k) == WithCount([x] + b, k) {
      WithCountCons(x, a, k);
      WithCountCons(x, b, k);
    }
  }

  lemma {:induction false} WithCountAppend(a: seq<WorkplaceShiftCount>, b: seq<WorkplaceShiftCount>, k: nat)
    ensures WithCount(a + b, k) == WithCount(a, k) + WithCount(b, k)
    decreases |a|
  {
    if a == [] {
      assert a + b == b;
    } else {
      var t := a[1..];
      assert a == [a[0]] + t;
      assert a + b == [a[0]] + (t + b);
      WithCountCons(a[0], t + b, k);
      WithCountAppend(t, b, k);
    }
  }

  /** Putting an entry in front of a descending sequence of no larger counts keeps it descending. */
  lemma ConsKeepsOrder(y: WorkplaceShiftCount, rest: seq<WorkplaceShiftCount>)
    requires NonIncreasing(rest)
    requires forall e :: e in rest ==> e.shifts <= y.shifts
    ensures NonIncreasing([y] + rest)
  {
    forall i, j | 0 <= i < j < |[y] + rest|
      ensures ([y] + rest)[i].shifts >= ([y] + rest)[j].shifts
    {
      assert ([y] + rest)[j] == rest[j - 1];
      if i > 0 { assert ([y] + rest)[i] == rest[i - 1]; }
    }
  }

  /**
   The step of `Insert` that keeps the first entry `s[0]` in front: if
   `rest` is `x` inserted into `s[1..]`, then `[s[0]] + rest` is `x`
   inserted into `s`.
   */
  lemma InsertBehind(x: WorkplaceShiftCount, s: seq<WorkplaceShiftCount>, rest: seq<WorkplaceShiftCount>)
    requires s != [] && s[0].shifts > x.shifts
    requires |rest| == |s|
    requires forall e :: e in rest ==> e == x || e in s[1..]
    requires NonIncreasing(s[1..]) ==> NonIncreasing(rest)
    requires forall k :: WithCount(rest, k) == WithCount([x] + s[1..], k)
    ensures forall e :: e in [s[0]] + rest ==> e == x || e in s
    ensures NonIncreasing(s) ==> NonIncreasing([s[0]] + rest)
    ensures forall k :: WithCount([s[0]] + rest, k) == WithCount([x] + s, k)
  {
    if NonIncreasing(s) {
      BoundedBehindFirst(x, s, rest);
      ConsKeepsOrder(s[0], rest);
    }
    InsertBehindStable(x, s, rest);
  }

  /** Everything `Insert` leaves behind the first entry of a descending `s` has no larger count. */
  lemma BoundedBehindFirst(x: WorkplaceShiftCount, s: seq<WorkplaceShiftCount>, rest: seq<WorkplaceShiftCount>)
    requires s != [] && s[0].shifts > x.shifts
    requires NonIncreasing(s)
    requires forall e :: e in rest ==> e == x || e in s[1..]
    ensures forall e :: e in rest ==> e.shifts <= s[0].shifts
  {
    forall e | e in rest ensures e.shifts <= s[0].shifts {
      if e != x {
        var j :| 0 <= j < |s[1..]| && s[1..][j] == e;
        assert s[j + 1] == e;
      }
    }
  }

  lemma InsertBehindStable(x: WorkplaceShiftCount, s: seq<WorkplaceShiftCount>, rest: seq<WorkplaceShiftCount>)
    requires s != [] && s[0].shifts > x.shifts
    requires forall k :: WithCount(rest, k) == WithCount([x] + s[1..], k)
    ensures forall k :: WithCount([s[0]] + rest, k) == WithCount([x] + s, k)
  {
    forall k ensures WithCount([s[0]] + rest, k) == WithCount([x] + s, k) {
      InsertBehindStableAt(x, s, rest, k);
    }
  }

  /** `InsertBehindStable` for one count `k`: `x` and `s[0]` never share a count, so they commute. */
  lemma InsertBehindStableAt(x: WorkplaceShiftCount, s: seq<WorkplaceShiftCount>, rest: seq<WorkplaceShiftCount>, k: nat)
    requires s != [] && s[0].shifts > x.shifts
    requires WithCount(rest, k) == WithCount([x] + s[1..], k)
    ensures WithCount([s[0]] + rest, k) == WithCount([x] + s, k)
  {
    var front := if s[0].shifts == k then [s[0]] else [];
    var mine := if x.shifts == k then [x] else [];
    var tail := WithCount(s[1..], k);
    assert WithCount(s, k) == front + tail;
    WithCountCons(s[0], rest, k);
    WithCountCons(x, s[1..], k);
    WithCountCons(x, s, k);
    assert WithCount([s[0]] + rest, k) == front + (mine + tail);
    assert WithCount([x] + s, k) == mine + (front + tail);
    assert front == [] || mine == [];
  }

  /**
   Inserts `x` in front of the first entry whose count is not larger, so
   that `x` lands before every entry of its own count.
   */
  function Insert(x: WorkplaceShiftCount, s: seq<WorkplaceShiftCount>): (r: seq<WorkplaceShiftCount>)
    ensures |r| == |s| + 1
    ensures forall e :: e in r ==> e == x || e in s
    ensures NonIncreasing(s) ==> NonIncreasing(r)
    ensures forall k :: WithCount(r, k) == WithCount([x] + s, k)
    decreases |s|
  {
    if s == [] then [x]
    else if s[0].shifts > x.shifts then
      var rest := Insert(x, s[1..]);
      InsertBehind(x, s, rest);
      [s[0]] + rest
    else
      [x] + s
  }

  /** Stable insertion sort, largest count first. */
  function Sort(s: seq<WorkplaceShiftCount>): (r: seq<WorkplaceShiftCount>)
    ensures |r| == |s|
    ensures NonIncreasing(r)
    ensures forall k :: WithCount(r, k) == WithCount(s, k)
    decreases |s|
  {
    if s == [] then []
    else
      var rest := Sort(s[1..]);
      ConsAgrees(s[0], rest, s[1..]);
      assert s == [s[0]] + s[1..];
      Insert(s[0], rest)
  }

  /** Inserting adds exactly the one entry. */
  lemma {:induction false} InsertPermutes(x: WorkplaceShiftCount, s: seq<WorkplaceShiftCount>)
    ensures multiset(Insert(x, s)) == multiset(s) + multiset{x}
    decreases |s|
  {
    if s != [] && s[0].shifts > x.shifts {
      InsertPermutes(x, s[1..]);
      assert s == [s[0]] + s[1..];
    }
  }

  /** The sort only reorders: it keeps every entry, as often as it occurs. */
  lemma {:induction false} SortPermutes(s: seq<WorkplaceShiftCount>)
    ensures multiset(Sort(s)) == multiset(s)
    decreases |s|
  {
    if s != [] {
      SortPermutes(s[1..]);
      InsertPermutes(s[0], Sort(s[1..]));
      assert s == [s[0]] + s[1..];
    }
  }

  /** The equations of the insertion sort, one step each. */
  lemma SortCons(x: WorkplaceShiftCount, s: seq<WorkplaceShiftCount>)
    ensures Sort([x] + s) == Insert(x, Sort(s))
  {
    assert ([x] + s)[1..] == s;
  }

  lemma InsertFront(x: WorkplaceShiftCount, s: seq<WorkplaceShiftCount>)
    requires s == [] || s[0].shifts <= x.shifts
    ensures Insert(x, s) == [x] + s
  {
  }

  lemma InsertPast(x: WorkplaceShiftCount, y: WorkplaceShiftCount, s: seq<WorkplaceShiftCount>)
    requires y.shifts > x.shifts
    ensures Insert(x, [y] + s) == [y] + Insert(x, s)
  {
    assert ([y] + s)[1..] == s;
  }

  /** A non-empty sequence holds an entry of its first entry's count. */
  lemma WithCountHead(s: seq<WorkplaceShiftCount>)
    ensures s != [] ==> WithCount(s, s[0].shifts) != []
  {
  }

  /** If `b` is descending and has an entry of count `k`, its first count is at least `k`. */
  lemma FirstIsLargest(b: seq<WorkplaceShiftCount>, k: nat)
    requires NonIncreasing(b)
    requires WithCount(b, k) != []
    ensures b != [] && k <= b[0].shifts
  {
    var e := WithCount(b, k)[0];
    WithCountMembers(b, k, e);
    var j :| 0 <= j < |b| && b[j] == e;
  }

  /** Removing an equal first entry keeps every `WithCount` in agreement. */
  lemma TailsAgree(a: seq<WorkplaceShiftCount>, b: seq<WorkplaceShiftCount>)
    requires a != [] && b != [] && a[0] == b[0]
    requires forall k :: WithCount(a, k) == WithCount(b, k)
    ensures forall k :: WithCount(a[1..], k) == WithCount(b[1..], k)
  {
    forall k ensures WithCount(a[1..], k) == WithCount(b[1..], k) {
      var head := if a[0].shifts == k then [a[0]] else [];
      assert WithCount(a, k) == head + WithCount(a[1..], k);
      assert WithCount(b, k) == head + WithCount(b[1..], k);
      assert WithCount(a[1..], k) == WithCount(a, k)[|head|..];
      assert WithCount(b[1..], k) == WithCount(b, k)[|head|..];
    }
  }

  /** Two descending sequences that agree on every `WithCount` start with the same count. */
  lemma FirstCountsAgree(a: seq<WorkplaceShiftCount>, b: seq<WorkplaceShiftCount>)
    requires NonIncreasing(a) && NonIncreasing(b)
    requires a != []
    requires forall k :: WithCount(a, k) == WithCount(b, k)
    ensures b != [] && a[0].shifts == b[0].shifts
  {
    WithCountHead(a);
    FirstIsLargest(b, a[0].shifts);
    WithCountHead(b);
    FirstIsLargest(a, b[0].shifts);
  }

  /** Two descending sequences that agree on every `WithCount` start with the same entry. */
  lemma HeadsAgree(a: seq<WorkplaceShiftCount>, b: seq<WorkplaceShiftCount>)
    requires NonIncreasing(a) && NonIncreasing(b)
    requires a != []
    requires forall k :: WithCount(a, k) == WithCount(b, k)
    ensures b != [] && a[0] == b[0]
  {
    FirstCountsAgree(a, b);
    var k := a[0].shifts;
    assert WithCount(a, k) == [a[0]] + WithCount(a[1..], k);
    assert WithCount(b, k) == [b[0]] + WithCount(b[1..], k);
    assert WithCount(a, k)[0] == a[0];
  }

  /**
   A descending sequence is determined by its entries of each count, in
   order: two of them that agree on every `WithCount` are equal.
   */
  lemma {:induction false} StableOrderUnique(a: seq<WorkplaceShiftCount>, b: seq<WorkplaceShiftCount>)
    requires NonIncreasing(a) && NonIncreasing(b)
    requires forall k :: WithCount(a, k) == WithCount(b, k)
    ensures a == b
    decreases |a|
  {
    if a != [] {
      HeadsAgree(a, b);
      TailsAgree(a, b);
      assert NonIncreasing(a[1..]) && NonIncreasing(b[1..]);
      StableOrderUnique(a[1..], b[1..]);
      assert a == [a[0]] + a[1..];
      assert b == [b[0]] + b[1..];
    } else if b != [] {
      HeadsAgree(b, a);
      assert false;
    }
  }

  /**
   Any ordering that is descending by count and keeps the relative order
   of equal counts, as a stable `Array.prototype.sort` does, is `Sort(s)`.
   */
  lemma StableSortIsUnique(s: seq<WorkplaceShiftCount>, t: seq<WorkplaceShiftCount>)
    requires NonIncreasing(t)
    requires forall k :: WithCount(t, k) == WithCount(s, k)
    ensures t == Sort(s)
  {
    StableOrderUnique(t, Sort(s));
  }
}
