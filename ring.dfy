/**
 * The node ring of the circular doubly linked list, stated over an arena.
 *
 * Nodes live in an arena and are named by their arena index; `next` and
 * `prev` map a node index to the index of its neighbour.  The sequence
 * `slots` lists the nodes in list order: `slots[k]` is the node at
 * position k + 1.  `IsRing` says that these links close into one ring
 * that visits exactly the nodes of `slots`, in that order, in both
 * directions.
 */
module Ring {

  /** The arena index that stands for a null link. */
  const Null: int := -1

  /** The position after k on a ring of n positions. */
  function Succ(k: nat, n: nat): (j: nat)
    requires k < n
    ensures j < n
  {
    if k + 1 == n then 0 else k + 1
  }

  /** The position before k on a ring of n positions. */
  function Pred(k: nat, n: nat): (j: nat)
    requires k < n
    ensures j < n
    ensures Succ(j, n) == k
  {
    if k == 0 then n - 1 else k - 1
  }

  ghost predicate Distinct(slots: seq<int>)
  {
    forall k, l :: 0 <= k < |slots| && 0 <= l < |slots| && k != l ==> slots[k] != slots[l]
  }

  /**
   * The links `next` and `prev` form one closed ring through the nodes of
   * `slots`, in order: each node's `next` is the node one position on
   * (the last wraps to the first) and its `prev` the node one position back.
   */
  ghost predicate IsRing(slots: seq<int>, next: seq<int>, prev: seq<int>)
  {
    |next| == |prev|
    && (forall k :: 0 <= k < |slots| ==> 0 <= slots[k] < |next|)
    && Distinct(slots)
    && (forall k {:trigger next[slots[k]]} :: 0 <= k < |slots| ==> next[slots[k]] == slots[Succ(k, |slots|)])
    && (forall k {:trigger prev[slots[k]]} :: 0 <= k < |slots| ==> prev[slots[k]] == slots[Pred(k, |slots|)])
  }

  /** The node reached by following `next` k times from `from`. */
  function Walk(next: seq<int>, from: int, k: nat): int
    decreases k
  {
    if k == 0 || !(0 <= from < |next|) then from else Walk(next, next[from], k - 1)
  }

  /** The node reached by following `prev` k times from `from`. */
  function WalkBack(prev: seq<int>, from: int, k: nat): int
    decreases k
  {
    if k == 0 || !(0 <= from < |prev|) then from else WalkBack(prev, prev[from], k - 1)
  }

  /** Euclidean remainders are unique. */
  lemma ModUnique(a: int, n: int, q: int, r: int)
    requires n > 0 && 0 <= r < n && a == q * n + r
    ensures a % n == r
  {
    var q', r' := a / n, a % n;
    assert a == q' * n + r';
    MulSub(q', q, n);
    if q' - q >= 1 {
      MulAtLeast(q' - q, n);
    } else if q - q' >= 1 {
      MulSub(q, q', n);
      MulAtLeast(q - q', n);
    }
  }

  lemma MulSub(a: int, b: int, n: int)
    ensures a * n - b * n == (a - b) * n
  {
  }

  lemma MulAtLeast(d: int, n: int)
    requires d >= 1 && n > 0
    ensures d * n >= n
  {
  }

  /** Stepping forward on a ring of n positions is adding one modulo n. */
  lemma SuccMod(k: int, n: nat)
    requires n > 0
    ensures Succ(k % n, n) == (k + 1) % n
  {
    var q := k / n;
    assert k == q * n + k % n;
    if k % n + 1 < n {
      ModUnique(k + 1, n, q, k % n + 1);
    } else {
      assert k + 1 == (q + 1) * n + 0;
      ModUnique(k + 1, n, q + 1, 0);
    }
  }

  /** Stepping backward on a ring of n positions is subtracting one modulo n. */
  lemma PredMod(k: int, n: nat)
    requires n > 0
    ensures Pred(k % n, n) == (k - 1) % n
  {
    SuccMod(k - 1, n);
    assert Succ((k - 1) % n, n) == k % n;
  }

  /**
   * Following `next` k times from the node at position j + 1 reaches the
   * node at position ((j + k) mod n) + 1: the ring closes after n steps.
   */
  lemma {:induction false} WalkAround(slots: seq<int>, next: seq<int>, prev: seq<int>, j: nat, k: nat)
    requires IsRing(slots, next, prev) && j < |slots|
    decreases k
    ensures Walk(next, slots[j], k) == slots[(j + k) % |slots|]
  {
    var n := |slots|;
    if k == 0 {
      ModUnique(j, n, 0, j);
    } else {
      var j' := Succ(j, n);
      WalkAround(slots, next, prev, j', k - 1);
      SuccMod(j, n);
      ModUnique(j, n, 0, j);
      assert (j' + (k - 1)) % n == (j + k) % n by {
        var q := (j + 1) / n;
        assert j + 1 == q * n + j';
        assert j' + (k - 1) == (j + k) - q * n;
        ModShift(j + k, n, q);
      }
    }
  }

  /**
   * Following `prev` k times from the node at position j + 1 reaches the
   * node at position ((j - k) mod n) + 1.
   */
  lemma {:induction false} WalkBackAround(slots: seq<int>, next: seq<int>, prev: seq<int>, j: nat, k: nat)
    requires IsRing(slots, next, prev) && j < |slots|
    decreases k
    ensures WalkBack(prev, slots[j], k) == slots[(j - k) % |slots|]
  {
    var n := |slots|;
    if k == 0 {
      ModUnique(j, n, 0, j);
    } else {
      var j' := Pred(j, n);
      WalkBackAround(slots, next, prev, j', k - 1);
      PredMod(j, n);
      ModUnique(j, n, 0, j);
      assert (j' - (k - 1)) % n == (j - k) % n by {
        var q := (j - 1) / n;
        assert j - 1 == q * n + j';
        assert j' - (k - 1) == (j - k) - q * n;
        ModShift(j - k, n, q);
      }
    }
  }

  /** Shifting by a multiple of n does not change a remainder modulo n. */
  lemma ModShift(a: int, n: int, q: int)
    requires n > 0
    ensures (a - q * n) % n == a % n
  {
    var d := a / n;
    assert a == d * n + a % n;
    assert a - q * n == (d - q) * n + a % n;
    ModUnique(a - q * n, n, d - q, a % n);
  }

  /**
   * The nodes of `slots` with node x put at position p + 2, described
   * position by position.
   */
  ghost predicate PutAfter(slots': seq<int>, slots: seq<int>, p: nat, x: int)
  {
    p < |slots| && |slots'| == |slots| + 1
    && (forall k :: 0 <= k <= p ==> slots'[k] == slots[k])
    && slots'[p + 1] == x
    && (forall k :: p + 1 < k < |slots'| ==> slots'[k] == slots[k - 1])
  }

  lemma PutAfterIsSplice(slots: seq<int>, p: nat, x: int)
    requires p < |slots|
    ensures PutAfter(slots[..p + 1] + [x] + slots[p + 1..], slots, p, x)
  {
  }

  /**
   * Splicing a freshly allocated node x in right after the node at
   * position p + 1 keeps a ring, with x at position p + 2.  The link
   * updates are the source's, in its order: x's next, x's prev, the old
   * successor's prev, then the cursor's next.
   */
  lemma SpliceAfterKeepsRing(slots: seq<int>, next: seq<int>, prev: seq<int>, p: nat, x: int)
    requires IsRing(slots, next, prev) && p < |slots| && x == |next|
    ensures
      var cur := slots[p];
      var succ := next[cur];
      IsRing(slots[..p + 1] + [x] + slots[p + 1..],
             (next + [Null])[x := succ][cur := x],
             (prev + [Null])[x := cur][succ := x])
  {
    var slots' := slots[..p + 1] + [x] + slots[p + 1..];
    PutAfterIsSplice(slots, p, x);
    var cur := slots[p];
    var succ := next[cur];
    SpliceDistinct(slots', slots, next, prev, p, x);
    SpliceNext(slots', slots, next, prev, p, x);
    SplicePrev(slots', slots, next, prev, p, x);
  }

  lemma SpliceDistinct(slots': seq<int>, slots: seq<int>, next: seq<int>, prev: seq<int>, p: nat, x: int)
    requires IsRing(slots, next, prev) && PutAfter(slots', slots, p, x) && x == |next|
    ensures forall k :: 0 <= k < |slots'| ==> 0 <= slots'[k] < |next| + 1
    ensures Distinct(slots')
  {
    forall k | 0 <= k < |slots'|
      ensures 0 <= slots'[k] < |next| + 1
    {
      if k > p + 1 { assert slots'[k] == slots[k - 1]; }
    }
    forall k, l | 0 <= k < |slots'| && 0 <= l < |slots'| && k != l
      ensures slots'[k] != slots'[l]
    {
      var k' := if k <= p + 1 then k else k - 1;
      var l' := if l <= p + 1 then l else l - 1;
      if k != p + 1 && l != p + 1 {
        assert slots'[k] == slots[k'] && slots'[l] == slots[l'];
      }
    }
  }

  lemma SpliceNext(slots': seq<int>, slots: seq<int>, next: seq<int>, prev: seq<int>, p: nat, x: int)
    requires IsRing(slots, next, prev) && PutAfter(slots', slots, p, x) && x == |next|
    ensures
      var next' := (next + [Null])[x := next[slots[p]]][slots[p] := x];
      forall k :: 0 <= k < |slots'| ==> next'[slots'[k]] == slots'[Succ(k, |slots'|)]
  {
    var n := |slots|;
    var cur := slots[p];
    var next' := (next + [Null])[x := next[cur]][cur := x];
    forall k | 0 <= k < n + 1
      ensures next'[slots'[k]] == slots'[Succ(k, n + 1)]
    {
      if k < p {
        assert slots'[k] == slots[k] && slots[k] != cur;
        assert next[slots[k]] == slots[Succ(k, n)];
      } else if k == p {
      } else if k == p + 1 {
        assert next[cur] == slots[Succ(p, n)];
      } else {
        assert slots'[k] == slots[k - 1] && slots[k - 1] != cur;
        assert next[slots[k - 1]] == slots[Succ(k - 1, n)];
      }
    }
  }

  lemma SplicePrev(slots': seq<int>, slots: seq<int>, next: seq<int>, prev: seq<int>, p: nat, x: int)
    requires IsRing(slots, next, prev) && PutAfter(slots', slots, p, x) && x == |next|
    ensures
      var cur := slots[p];
      var prev' := (prev + [Null])[x := cur][next[cur] := x];
      forall k :: 0 <= k < |slots'| ==> prev'[slots'[k]] == slots'[Pred(k, |slots'|)]
  {
    var n := |slots|;
    var cur := slots[p];
    var succ := next[cur];
    var prev' := (prev + [Null])[x := cur][succ := x];
    assert succ == slots[Succ(p, n)];
    forall k | 0 <= k < n + 1
      ensures prev'[slots'[k]] == slots'[Pred(k, n + 1)]
    {
      if k <= p {
        assert slots'[k] == slots[k];
        if k == Succ(p, n) {
          assert k == 0 && p == n - 1;
        } else {
          assert slots[k] != succ;
          assert prev[slots[k]] == slots[Pred(k, n)];
        }
      } else if k == p + 1 {
      } else if k == p + 2 {
        assert slots'[k] == slots[p + 1] == succ;
      } else {
        assert slots'[k] == slots[k - 1] && k - 1 != Succ(p, n);
        assert slots[k - 1] != succ;
        assert prev[slots[k - 1]] == slots[Pred(k - 1, n)];
      }
    }
  }

  /**
   * A ring stays a ring when its first position is moved to a different
   * node of it: the ring through `slots + [x]` is also the ring through
   * `[x] + slots`.
   */
  lemma RotateKeepsRing(slots: seq<int>, x: int, next: seq<int>, prev: seq<int>)
    requires IsRing(slots + [x], next, prev)
    ensures IsRing([x] + slots, next, prev)
  {
    var before := slots + [x];
    var after := [x] + slots;
    var m := |after|;
    forall k | 0 <= k < m
      ensures after[k] == before[Pred(k, m)]
    {
      if k > 0 { assert after[k] == slots[k - 1]; }
    }
    RotatedRing(after, before, next, prev);
  }

  lemma RotatedRing(after: seq<int>, before: seq<int>, next: seq<int>, prev: seq<int>)
    requires IsRing(before, next, prev) && |after| == |before|
    requires forall k :: 0 <= k < |after| ==> after[k] == before[Pred(k, |after|)]
    ensures IsRing(after, next, prev)
  {
    var m := |after|;
    forall k | 0 <= k < m
      ensures next[after[k]] == after[Succ(k, m)]
    {
      var k' := Pred(k, m);
      assert next[before[k']] == before[Succ(k', m)];
      assert after[Succ(k, m)] == before[Pred(Succ(k, m), m)];
    }
    forall k | 0 <= k < m
      ensures prev[after[k]] == after[Pred(k, m)]
    {
      var k' := Pred(k, m);
      assert prev[before[k']] == before[Pred(k', m)];
    }
    forall k, l | 0 <= k < m && 0 <= l < m && k != l
      ensures after[k] != after[l]
    {
      assert after[k] == before[Pred(k, m)] && after[l] == before[Pred(l, m)];
    }
  }

  /** The nodes of `slots` without the one at position q + 1, described position by position. */
  ghost predicate LeaveOut(slots': seq<int>, slots: seq<int>, q: nat)
  {
    q < |slots| && |slots'| == |slots| - 1
    && (forall k :: 0 <= k < q ==> slots'[k] == slots[k])
    && (forall k :: q <= k < |slots'| ==> slots'[k] == slots[k + 1])
  }

  /**
   * Unlinking the node at position q + 1 (its predecessor's next set to
   * its successor, its successor's prev set to its predecessor, then its
   * own links cleared) leaves a ring of the remaining nodes in order.
   */
  lemma UnlinkKeepsRing(slots: seq<int>, next: seq<int>, prev: seq<int>, q: nat)
    requires IsRing(slots, next, prev) && q < |slots|
    ensures
      var n := |slots|;
      var ptr := slots[q];
      var before := slots[Pred(q, n)];
      var after := slots[Succ(q, n)];
      IsRing(slots[..q] + slots[q + 1..],
             next[before := after][ptr := Null],
             prev[after := before][ptr := Null])
  {
    var slots' := slots[..q] + slots[q + 1..];
    assert LeaveOut(slots', slots, q);
    UnlinkDistinct(slots', slots, next, prev, q);
    UnlinkNext(slots', slots, next, prev, q);
    UnlinkPrev(slots', slots, next, prev, q);
  }

  lemma UnlinkDistinct(slots': seq<int>, slots: seq<int>, next: seq<int>, prev: seq<int>, q: nat)
    requires IsRing(slots, next, prev) && LeaveOut(slots', slots, q)
    ensures forall k :: 0 <= k < |slots'| ==> 0 <= slots'[k] < |next| && slots'[k] != slots[q]
    ensures Distinct(slots')
  {
    forall k | 0 <= k < |slots'|
      ensures 0 <= slots'[k] < |next| && slots'[k] != slots[q]
    {
      var k' := if k < q then k else k + 1;
      assert slots'[k] == slots[k'];
    }
    forall k, l | 0 <= k < |slots'| && 0 <= l < |slots'| && k != l
      ensures slots'[k] != slots'[l]
    {
      var k' := if k < q then k else k + 1;
      var l' := if l < q then l else l + 1;
      assert slots'[k] == slots[k'] && slots'[l] == slots[l'];
    }
  }

  lemma UnlinkNext(slots': seq<int>, slots: seq<int>, next: seq<int>, prev: seq<int>, q: nat)
    requires IsRing(slots, next, prev) && LeaveOut(slots', slots, q)
    ensures
      var n := |slots|;
      var next' := next[slots[Pred(q, n)] := slots[Succ(q, n)]][slots[q] := Null];
      forall k :: 0 <= k < |slots'| ==> next'[slots'[k]] == slots'[Succ(k, |slots'|)]
  {
    var n := |slots|;
    var m := n - 1;
    var next' := next[slots[Pred(q, n)] := slots[Succ(q, n)]][slots[q] := Null];
    forall k | 0 <= k < m
      ensures next'[slots'[k]] == slots'[Succ(k, m)]
    {
      var k' := if k < q then k else k + 1;
      assert slots'[k] == slots[k'] && k' != q;
      if k' == Pred(q, n) {
        assert next'[slots'[k]] == slots[Succ(q, n)];
      } else {
        assert slots[k'] != slots[Pred(q, n)];
        assert next'[slots'[k]] == next[slots[k']] == slots[Succ(k', n)];
      }
    }
  }

  lemma UnlinkPrev(slots': seq<int>, slots: seq<int>, next: seq<int>, prev: seq<int>, q: nat)
    requires IsRing(slots, next, prev) && LeaveOut(slots', slots, q)
    ensures
      var n := |slots|;
      var prev' := prev[slots[Succ(q, n)] := slots[Pred(q, n)]][slots[q] := Null];
      forall k :: 0 <= k < |slots'| ==> prev'[slots'[k]] == slots'[Pred(k, |slots'|)]
  {
    var n := |slots|;
    var m := n - 1;
    var prev' := prev[slots[Succ(q, n)] := slots[Pred(q, n)]][slots[q] := Null];
    forall k | 0 <= k < m
      ensures prev'[slots'[k]] == slots'[Pred(k, m)]
    {
      var k' := if k < q then k else k + 1;
      assert slots'[k] == slots[k'] && k' != q;
      if k' == Succ(q, n) {
        assert prev'[slots'[k]] == slots[Pred(q, n)];
      } else {
        assert slots[k'] != slots[Succ(q, n)];
        assert prev'[slots'[k]] == prev[slots[k']] == slots[Pred(k', n)];
      }
    }
  }

  /** Allocating a fresh, unlinked node does not disturb the ring. */
  lemma GrowKeepsRing(slots: seq<int>, next: seq<int>, prev: seq<int>)
    requires IsRing(slots, next, prev)
    ensures IsRing(slots, next + [Null], prev + [Null])
  {
    forall k | 0 <= k < |slots|
      ensures (next + [Null])[slots[k]] == next[slots[k]] && (prev + [Null])[slots[k]] == prev[slots[k]]
    {
    }
  }
}
