/**
 * What each list operation does to the sequence of elements, position by
 * position (positions are 1-based, as in the list's interface), and the
 * properties of those effects.
 */
module ListSpec {

  /**
   * The 0-based place at which `insert(index, v)` puts v in a list of n
   * elements, as the code does it: at the front for index 1, after the
   * element at position index for 2 <= index <= n, and at the end for
   * index n + 1.
   */
  function InsertSlot(n: nat, index: int): (at: nat)
    requires 1 <= index <= n + 1
    ensures at <= n
    ensures at == index - 1 <==> index == 1 || index == n + 1
  {
    if index == 1 then 0 else if index <= n then index else n
  }

  /** The elements after `insert(index, v)`, as the code behaves. */
  function InsertedAt<T>(s: seq<T>, index: int, v: T): (r: seq<T>)
    requires 1 <= index <= |s| + 1
    ensures |r| == |s| + 1
  {
    var at := InsertSlot(|s|, index);
    s[..at] + [v] + s[at..]
  }

  /** The elements after `remove(index)`. */
  function RemovedAt<T>(s: seq<T>, index: int): (r: seq<T>)
    requires 1 <= index <= |s|
    ensures |r| == |s| - 1
  {
    s[..index - 1] + s[index..]
  }

  /** The elements after `swap(i, j)`: the payloads at positions i and j trade places. */
  function Swapped<T>(s: seq<T>, i: int, j: int): (r: seq<T>)
    requires 1 <= i <= |s| && 1 <= j <= |s|
  {
    s[i - 1 := s[j - 1]][j - 1 := s[i - 1]]
  }

  /** Non-decreasing: the least element first and the greatest last. */
  ghost predicate Sorted(s: seq<int>)
  {
    forall a, b :: 0 <= a < b < |s| ==> s[a] <= s[b]
  }

  /** The first m positions hold their final values: each is no greater than anything after it. */
  ghost predicate SortedUpTo(s: seq<int>, m: int)
  {
    forall a, b :: 0 <= a < m && a < b < |s| ==> s[a] <= s[b]
  }

  /** s[at] is a least element of s[from..to]. */
  ghost predicate LeastIn(s: seq<int>, from: int, to: int, at: int)
  {
    0 <= at < |s| && forall k :: from <= k < to && 0 <= k < |s| ==> s[at] <= s[k]
  }

  /**
   * One round of selection sort: swapping a least element of the unsorted
   * part into position curr extends the sorted prefix by one, and only
   * rearranges the elements.
   */
  lemma SelectionStep(s: seq<int>, curr: int, min: int)
    requires 1 <= curr <= min <= |s|
    requires SortedUpTo(s, curr - 1) && LeastIn(s, curr - 1, |s|, min - 1)
    ensures SortedUpTo(Swapped(s, curr, min), curr)
    ensures multiset(Swapped(s, curr, min)) == multiset(s)
  {
    var t := Swapped(s, curr, min);
    SwappedPlaces(s, curr, min);
    SwapPermutes(s, curr, min);
    forall a, b | 0 <= a < curr && a < b < |t|
      ensures t[a] <= t[b]
    {
      if a < curr - 1 {
        assert t[a] == s[a];
        if b == curr - 1 {
          assert t[b] == s[min - 1];
        } else if b == min - 1 {
          assert t[b] == s[curr - 1];
        } else {
          assert t[b] == s[b];
        }
      } else {
        assert t[a] == s[min - 1];
        if b == min - 1 {
          assert t[b] == s[curr - 1];
        } else {
          assert t[b] == s[b];
        }
      }
    }
  }

  /** The elements in reverse position order. */
  function Reversed<T>(s: seq<T>): (r: seq<T>)
    ensures |r| == |s|
    ensures forall k :: 0 <= k < |s| ==> r[k] == s[|s| - 1 - k]
  {
    if s == [] then [] else Reversed(s[1..]) + [s[0]]
  }

  /** Where the new element lands and where every old element goes after an insert. */
  lemma InsertedAtPlaces<T>(s: seq<T>, index: int, v: T)
    requires 1 <= index <= |s| + 1
    ensures
      var r := InsertedAt(s, index, v);
      var at := InsertSlot(|s|, index);
      |r| == |s| + 1 && r[at] == v
      && (forall k :: 0 <= k < at ==> r[k] == s[k])
      && (forall k :: at < k < |r| ==> r[k] == s[k - 1])
  {
  }

  /** Inserting at position 1 puts the value in front of every element. */
  lemma InsertFront<T>(s: seq<T>, v: T)
    ensures InsertedAt(s, 1, v) == [v] + s
  {
  }

  /** Inserting at position |s| + 1 appends. */
  lemma InsertBack<T>(s: seq<T>, v: T)
    ensures InsertedAt(s, |s| + 1, v) == s + [v]
  {
  }

  /**
   * Inserting at a position 2..|s| puts the value after the element that
   * held that position, so it ends up at position index + 1.
   */
  lemma InsertMiddle<T>(s: seq<T>, index: int, v: T)
    requires 2 <= index <= |s|
    ensures InsertedAt(s, index, v) == s[..index] + [v] + s[index..]
    ensures InsertedAt(s, index, v)[index] == v
  {
  }

  /** Removing the element an insert placed gives back the elements before the insert. */
  lemma RemoveUndoesInsert<T>(s: seq<T>, index: int, v: T)
    requires 1 <= index <= |s| + 1
    ensures RemovedAt(InsertedAt(s, index, v), InsertSlot(|s|, index) + 1) == s
  {
    var at := InsertSlot(|s|, index);
    var r := InsertedAt(s, index, v);
    assert r[..at] == s[..at];
    assert r[at + 1..] == s[at..];
    assert s == s[..at] + s[at..];
  }

  /** Where every remaining element goes after a remove. */
  lemma RemovedAtPlaces<T>(s: seq<T>, index: int)
    requires 1 <= index <= |s|
    ensures
      var r := RemovedAt(s, index);
      |r| == |s| - 1
      && (forall k :: 0 <= k < index - 1 ==> r[k] == s[k])
      && (forall k :: index - 1 <= k < |r| ==> r[k] == s[k + 1])
  {
  }

  /** A swap exchanges the two payloads and leaves every other position as it was. */
  lemma SwappedPlaces<T>(s: seq<T>, i: int, j: int)
    requires 1 <= i <= |s| && 1 <= j <= |s|
    ensures
      var r := Swapped(s, i, j);
      |r| == |s| && r[i - 1] == s[j - 1] && r[j - 1] == s[i - 1]
      && (forall k :: 0 <= k < |s| && k != i - 1 && k != j - 1 ==> r[k] == s[k])
  {
  }

  /** Swapping a position with itself changes nothing. */
  lemma SwapSelf<T>(s: seq<T>, i: int)
    requires 1 <= i <= |s|
    ensures Swapped(s, i, i) == s
  {
  }

  /** Swapping the same two positions twice restores the original. */
  lemma SwapTwice<T>(s: seq<T>, i: int, j: int)
    requires 1 <= i <= |s| && 1 <= j <= |s|
    ensures Swapped(Swapped(s, i, j), i, j) == s
  {
  }

  /** A swap only rearranges: the multiset of elements is kept. */
  lemma SwapPermutes<T>(s: seq<T>, i: int, j: int)
    requires 1 <= i <= |s| && 1 <= j <= |s|
    ensures multiset(Swapped(s, i, j)) == multiset(s)
  {
    var t := s[i - 1 := s[j - 1]];
    assert multiset(t) == multiset(s) - multiset{s[i - 1]} + multiset{s[j - 1]};
    assert multiset(t[j - 1 := s[i - 1]]) == multiset(t) - multiset{t[j - 1]} + multiset{s[i - 1]};
  }

  /** Reversing twice gives back the original order. */
  lemma ReversedTwice<T>(s: seq<T>)
    ensures Reversed(Reversed(s)) == s
  {
  }

  /**
   * Two sorted sequences with the same elements are equal: so once a list
   * is sorted, sorting it again leaves the same sequence.
   */
  lemma {:induction false} SortedPermutationUnique(s: seq<int>, t: seq<int>)
    requires Sorted(s) && Sorted(t) && multiset(s) == multiset(t)
    ensures s == t
  {
    if s != [] {
      assert |t| == |s| by {
        assert |multiset(s)| == |s| && |multiset(t)| == |t|;
      }
      assert s[0] in multiset(t) && t[0] in multiset(s);
      LeastIsFirst(s, t[0]);
      LeastIsFirst(t, s[0]);
      assert s[0] == t[0];
      assert s == [s[0]] + s[1..] && t == [t[0]] + t[1..];
      assert multiset(s[1..]) == multiset(t[1..]) by {
        assert multiset(s) == multiset([s[0]] + s[1..]) == multiset([s[0]]) + multiset(s[1..]);
        assert multiset(t) == multiset([t[0]] + t[1..]) == multiset([t[0]]) + multiset(t[1..]);
        assert multiset(s[1..]) == multiset(s) - multiset([s[0]]);
        assert multiset(t[1..]) == multiset(t) - multiset([t[0]]);
      }
      SortedPermutationUnique(s[1..], t[1..]);
    }
  }

  /** In a sorted sequence the first element is no greater than any element. */
  lemma LeastIsFirst(s: seq<int>, x: int)
    requires Sorted(s) && x in multiset(s)
    ensures s != [] && s[0] <= x
  {
    assert x in s;
    var k :| 0 <= k < |s| && s[k] == x;
    assert k == 0 || s[0] <= s[k];
  }

  /**
   * The number of links the locator follows to reach position index of a
   * list of n elements: forward from the head when index < n / 2
   * (integer division), otherwise backward from the tail, where a
   * negative count (index = n + 1) follows none and stays at the tail.
   */
  function LocatorHops(n: nat, index: int): (hops: nat)
    requires 1 <= index <= n + 1
  {
    if index < n / 2 then index - 1 else if index <= n then n - index else 0
  }

  /** The locator never follows more than half the ring, rounded up. */
  lemma LocatorHopsBound(n: nat, index: int)
    requires 1 <= index <= n + 1
    ensures LocatorHops(n, index) <= (n + 1) / 2
  {
  }

  /**
   * The direction rule is not always the nearer one: on four elements,
   * position 2 is reached backward in two hops, where forward takes one.
   */
  lemma LocatorNotAlwaysNearer()
    ensures LocatorHops(4, 2) == 2 && 2 - 1 < LocatorHops(4, 2)
  {
  }

  // ---------------------------------------------------------------------
  // The insert position as documented, against the code.

  /**
   * Insert as its documentation describes it: v becomes the element at
   * position index.
   */
  function InsertedAsDocumented<T>(s: seq<T>, index: int, v: T): (r: seq<T>)
    requires 1 <= index <= |s| + 1
    ensures |r| == |s| + 1 && r[index - 1] == v
    ensures RemovedAt(r, index) == s
  {
    var r := s[..index - 1] + [v] + s[index - 1..];
    assert r[..index - 1] == s[..index - 1] && r[index..] == s[index - 1..];
    assert s == s[..index - 1] + s[index - 1..];
    r
  }

  /**
   * The documented and the coded insert agree where the value goes to
   * the front or the back, which covers every insert the copy
   * constructor makes.
   */
  lemma InsertAgreesAtEnds<T>(s: seq<T>, v: T)
    ensures InsertedAt(s, 1, v) == InsertedAsDocumented(s, 1, v)
    ensures InsertedAt(s, |s| + 1, v) == InsertedAsDocumented(s, |s| + 1, v)
  {
  }

  /**
   * In the middle the coded insert misses the documented position: for
   * 2 <= index <= |s|, the element at position index afterwards is the
   * old one, not v (whenever the two differ).
   */
  lemma InsertMissesDocumentedPosition<T>(s: seq<T>, index: int, v: T)
    requires 2 <= index <= |s| && s[index - 1] != v
    ensures InsertedAt(s, index, v)[index - 1] == s[index - 1] != v
    ensures InsertedAt(s, index, v) != InsertedAsDocumented(s, index, v)
  {
    assert InsertedAsDocumented(s, index, v)[index - 1] == v;
  }

  /** One instance: inserting 9 at position 2 of [3, 5, 7] gives [3, 5, 9, 7], not [3, 9, 5, 7]. */
  lemma InsertMiddleExample()
    ensures InsertedAt([3, 5, 7], 2, 9) == [3, 5, 9, 7]
    ensures InsertedAsDocumented([3, 5, 7], 2, 9) == [3, 9, 5, 7]
  {
  }
}
