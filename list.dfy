/**
 * The circular doubly linked list, addressed by 1-based position.
 *
 * Nodes live in an arena: a node is an index into the parallel sequences
 * `data`, `next` and `prev`, and a link is the index of the neighbouring
 * node (`Null` for a cleared link).  Allocating a node appends a slot to
 * the arena; freeing one clears its links and leaves the slot unused.
 *
 * The public view is the ghost sequence `Contents`, the elements in
 * position order; `Nodes[k]` is the node that holds position k + 1.
 */
module CircularList {

  import opened Ring
  import opened ListSpec
  import opened Outcomes

  /** Node nodes[k] of the arena holds contents[k], for every position. */
  ghost predicate Holds(data: seq<int>, nodes: seq<int>, contents: seq<int>)
  {
    |nodes| == |contents|
    && forall k :: 0 <= k < |nodes| ==> 0 <= nodes[k] < |data| && data[nodes[k]] == contents[k]
  }

  lemma GrowKeepsHolds(data: seq<int>, nodes: seq<int>, contents: seq<int>, value: int)
    requires Holds(data, nodes, contents)
    ensures Holds(data + [value], nodes, contents)
  {
  }

  lemma HoldsAfterInsert(data: seq<int>, nodes: seq<int>, contents: seq<int>, index: int, value: int)
    requires Holds(data, nodes, contents) && 1 <= index <= |nodes| + 1
    ensures Holds(data + [value], InsertedAt(nodes, index, |data|), InsertedAt(contents, index, value))
  {
    InsertedAtPlaces(nodes, index, |data|);
    InsertedAtPlaces(contents, index, value);
  }

  lemma HoldsAfterRemove(data: seq<int>, nodes: seq<int>, contents: seq<int>, index: int)
    requires Holds(data, nodes, contents) && 1 <= index <= |nodes|
    ensures Holds(data, RemovedAt(nodes, index), RemovedAt(contents, index))
  {
    RemovedAtPlaces(nodes, index);
    RemovedAtPlaces(contents, index);
  }

  lemma HoldsAfterSwap(data: seq<int>, nodes: seq<int>, contents: seq<int>, i: int, j: int)
    requires Holds(data, nodes, contents) && Distinct(nodes)
    requires 1 <= i <= |nodes| && 1 <= j <= |nodes|
    ensures
      var first, second := nodes[i - 1], nodes[j - 1];
      Holds(data[first := data[second]][second := data[first]], nodes, Swapped(contents, i, j))
  {
    SwappedPlaces(contents, i, j);
  }

  /** The node allocated into an empty list links to itself. */
  lemma LinkAloneKeepsRing(next: seq<int>, prev: seq<int>, ptr: int)
    requires |next| == |prev| && ptr == |next|
    ensures
      var nodes' := InsertedAt([], 1, ptr);
      nodes' == [ptr]
      && IsRing(nodes', (next + [Null])[ptr := ptr], (prev + [Null])[ptr := ptr])
  {
  }

  /**
   * Insertion at position 1 of a non-empty list: the new node goes
   * between the tail and the head, and becomes the head.
   */
  lemma LinkFrontKeepsRing(nodes: seq<int>, next: seq<int>, prev: seq<int>, ptr: int)
    requires IsRing(nodes, next, prev) && |nodes| > 0 && ptr == |next|
    ensures
      var head := nodes[0];
      var tail := prev[head];
      var nodes' := InsertedAt(nodes, 1, ptr);
      nodes'[0] == ptr
      && IsRing(nodes', (next + [Null])[ptr := head][tail := ptr], (prev + [Null])[ptr := tail][head := ptr])
  {
    var n := |nodes|;
    var head := nodes[0];
    var tail := prev[head];
    assert tail == nodes[n - 1] && next[tail] == head;
    SpliceAfterKeepsRing(nodes, next, prev, n - 1, ptr);
    assert nodes[..n] + [ptr] + nodes[n..] == nodes + [ptr];
    RotateKeepsRing(nodes, ptr, (next + [Null])[ptr := head][tail := ptr], (prev + [Null])[ptr := tail][head := ptr]);
    assert InsertedAt(nodes, 1, ptr) == [ptr] + nodes;
  }

  /**
   * Insertion at index 2..n + 1: the new node is spliced in after the
   * node at position index (the tail when index is n + 1).
   */
  lemma LinkAfterKeepsRing(nodes: seq<int>, next: seq<int>, prev: seq<int>, index: int, ptr: int)
    requires IsRing(nodes, next, prev) && 2 <= index <= |nodes| + 1 && ptr == |next|
    ensures
      var cur := nodes[if index <= |nodes| then index - 1 else |nodes| - 1];
      var nodes' := InsertedAt(nodes, index, ptr);
      nodes'[0] == nodes[0]
      && IsRing(nodes', (next + [Null])[ptr := next[cur]][cur := ptr], (prev + [Null])[ptr := cur][next[cur] := ptr])
  {
    var p := if index <= |nodes| then index - 1 else |nodes| - 1;
    SpliceAfterKeepsRing(nodes, next, prev, p, ptr);
    assert InsertedAt(nodes, index, ptr) == nodes[..p + 1] + [ptr] + nodes[p + 1..];
  }

  /**
   * Splicing the new node in after the node at position index - 1 puts it
   * at position index, as the insert's documentation describes.
   */
  lemma LinkBeforeKeepsRing(nodes: seq<int>, next: seq<int>, prev: seq<int>, index: int, ptr: int)
    requires IsRing(nodes, next, prev) && 2 <= index <= |nodes| + 1 && ptr == |next|
    ensures
      var cur := nodes[index - 2];
      var nodes' := InsertedAsDocumented(nodes, index, ptr);
      nodes'[0] == nodes[0]
      && IsRing(nodes', (next + [Null])[ptr := next[cur]][cur := ptr], (prev + [Null])[ptr := cur][next[cur] := ptr])
  {
    SpliceAfterKeepsRing(nodes, next, prev, index - 2, ptr);
    assert InsertedAsDocumented(nodes, index, ptr) == nodes[..index - 1] + [ptr] + nodes[index - 1..];
  }

  lemma HoldsAfterInsertAsDocumented(data: seq<int>, nodes: seq<int>, contents: seq<int>, index: int, value: int)
    requires Holds(data, nodes, contents) && 1 <= index <= |nodes| + 1
    ensures Holds(data + [value], InsertedAsDocumented(nodes, index, |data|), InsertedAsDocumented(contents, index, value))
  {
    var nodes', contents' := InsertedAsDocumented(nodes, index, |data|), InsertedAsDocumented(contents, index, value);
    assert nodes' == nodes[..index - 1] + [|data|] + nodes[index - 1..];
    assert contents' == contents[..index - 1] + [value] + contents[index - 1..];
    forall k | 0 <= k < |nodes'|
      ensures 0 <= nodes'[k] < |data| + 1 && (data + [value])[nodes'[k]] == contents'[k]
    {
      if k < index - 1 {
        assert nodes'[k] == nodes[k] && contents'[k] == contents[k];
      } else if index - 1 < k {
        assert nodes'[k] == nodes[k - 1] && contents'[k] == contents[k - 1];
      }
    }
  }

  /** Unlinking the first node closes the ring over the remaining nodes, the old second node first. */
  lemma UnlinkFrontKeepsRing(nodes: seq<int>, next: seq<int>, prev: seq<int>)
    requires IsRing(nodes, next, prev) && |nodes| >= 1
    ensures
      var ptr := nodes[0];
      var after, before := next[ptr], prev[ptr];
      IsRing(RemovedAt(nodes, 1), next[before := after][ptr := Null], prev[after := before][ptr := Null])
      && (|nodes| > 1 ==> after == nodes[1])
  {
    UnlinkKeepsRing(nodes, next, prev, 0);
    assert RemovedAt(nodes, 1) == nodes[..0] + nodes[1..];
  }

  /** Unlinking the node after cur closes the ring over the remaining nodes; the first node stays first. */
  lemma UnlinkAfterKeepsRing(nodes: seq<int>, next: seq<int>, prev: seq<int>, index: int)
    requires IsRing(nodes, next, prev) && 2 <= index <= |nodes|
    ensures
      var cur, ptr := nodes[index - 2], nodes[index - 1];
      var after := next[ptr];
      cur != ptr
      && IsRing(RemovedAt(nodes, index), next[cur := after][ptr := Null], prev[after := cur][ptr := Null])
      && RemovedAt(nodes, index)[0] == nodes[0]
  {
    UnlinkKeepsRing(nodes, next, prev, index - 1);
    assert Pred(index - 1, |nodes|) == index - 2;
    assert RemovedAt(nodes, index) == nodes[..index - 1] + nodes[index..];
  }

  class List {
    // the arena of nodes
    var data: seq<int>
    var next: seq<int>
    var prev: seq<int>
    // the first node and the element count
    var head: int
    var size: nat

    // public view: the elements in position order, and the node holding each position
    ghost var Contents: seq<int>
    ghost var Nodes: seq<int>

    /**
     * The links close into one ring through `Nodes`, in position order,
     * starting at `head`, with `size` nodes, each holding its element.
     * Emptiness is `size == 0`: `head` is then not looked at.
     */
    ghost predicate Valid()
      reads this
    {
      |data| == |next|
      && IsRing(Nodes, next, prev)
      && size == |Nodes|
      && (size > 0 ==> head == Nodes[0])
      && Holds(data, Nodes, Contents)
    }

    /** An empty list. */
    constructor ()
      ensures Valid() && Contents == [] && head == Null
    {
      data, next, prev := [], [], [];
      head, size := Null, 0;
      Contents, Nodes := [], [];
    }

    /** A deep copy, made by appending the original's elements one by one. */
    constructor Copy(original: List)
      requires original.Valid()
      ensures Valid() && Contents == original.Contents
    {
      data, next, prev := [], [], [];
      head, size := Null, 0;
      Contents, Nodes := [], [];
      new;
      var i := 1;
      while i <= original.GetLength()
        invariant Valid() && original.Valid()
        invariant 1 <= i <= |original.Contents| + 1
        invariant Contents == original.Contents[..i - 1]
      {
        var item := original.Retrieve(i);
        InsertBack(Contents, item.value);
        var outcome := Insert(i, item.value);
        i := i + 1;
      }
    }

    /** Empties the list by removing the first element until none is left. */
    method Destroy()
      requires Valid()
      modifies this
      ensures Valid() && Contents == [] && size == 0
    {
      while !IsEmpty()
        invariant Valid()
        decreases size
      {
        var outcome := Remove(1);
      }
    }

    function IsEmpty(): (empty: bool)
      reads this
      requires Valid()
      ensures empty <==> Contents == []
    {
      size == 0
    }

    function GetLength(): (n: int)
      reads this
      requires Valid()
      ensures n == |Contents|
    {
      size
    }

    /**
     * Walks `next` from the head index - 1 times.  Past the last position
     * the walk wraps round the ring.
     */
    method FindForward(index: int) returns (p: int)
      requires Valid() && size > 0 && index >= 1
      ensures p == Nodes[(index - 1) % size]
      ensures index <= size ==> p == Nodes[index - 1]
    {
      p := head;
      ModUnique(0, size, 0, 0);
      if index <= size {
        ModUnique(index - 1, size, 0, index - 1);
      }
      if index == 1 {
        return;
      }
      ghost var at: nat := 0;
      var i := 1;
      while i < index
        invariant 1 <= i <= index
        invariant at < size && at == (i - 1) % size && p == Nodes[at]
      {
        SuccMod(i - 1, size);
        p := next[p];
        at := Succ(at, size);
        i := i + 1;
      }
    }

    /**
     * Walks `prev` from the tail size - index times.  For index = size + 1
     * that count is negative, no step is taken and the tail is returned.
     */
    method FindReverse(index: int) returns (p: int)
      requires Valid() && size > 0 && index >= 1
      ensures p == Nodes[if index <= size then index - 1 else size - 1]
    {
      p := prev[head];
      var temp := GetLength() - index;
      if temp == 0 {
        return;
      }
      var i := temp;
      while i > 0
        invariant i <= temp && (i < 0 ==> i == temp)
        invariant 0 <= temp - i < size
        invariant p == Nodes[size - 1 - (temp - i)]
      {
        p := prev[p];
        i := i - 1;
      }
    }

    /**
     * The node at position index (the tail for index = size + 1), found by
     * walking forward when index < size / 2 and backward otherwise.
     */
    method Locate(index: int) returns (p: int)
      requires Valid() && size > 0 && 1 <= index <= size + 1
      ensures p == Nodes[if index <= size then index - 1 else size - 1]
    {
      if index < GetLength() / 2 {
        p := FindForward(index);
        ModUnique(index - 1, size, 0, index - 1);
      } else {
        p := FindReverse(index);
      }
    }

    /** Allocates a node holding value, with both links null, outside the ring. */
    method NewNode(value: int) returns (ptr: int)
      requires Valid()
      modifies this
      ensures Valid() && ptr == old(|data|)
      ensures data == old(data) + [value] && next == old(next) + [Null] && prev == old(prev) + [Null]
      ensures Nodes == old(Nodes) && Contents == old(Contents) && head == old(head) && size == old(size)
    {
      ptr := |data|;
      data, next, prev := data + [value], next + [Null], prev + [Null];
      GrowKeepsRing(Nodes, old(next), old(prev));
      GrowKeepsHolds(old(data), Nodes, Contents, value);
    }

    /**
     * Inserts value at index 1..size + 1.  Position 1 makes it the new
     * head; any other index splices it in after the node at position
     * index (the tail for size + 1).
     */
    method Insert(index: int, value: int) returns (r: Outcome)
      requires Valid()
      modifies this
      ensures Valid()
      ensures r == if 1 <= index <= old(size) + 1 then Done else Failed(IndexOutOfRange)
      ensures r.Done? ==> Contents == InsertedAt(old(Contents), index, value)
      ensures r.Done? ==> Nodes == InsertedAt(old(Nodes), index, old(|data|))
      ensures r.Done? ==> data == old(data) + [value]
      ensures r.Failed? ==> unchanged(this)
    {
      if index < 1 || index > GetLength() + 1 {
        return Failed(IndexOutOfRange);
      }
      ghost var nodes0, contents0, data0 := Nodes, Contents, data;
      var ptr := NewNode(value);
      if index == 1 {
        if GetLength() == 0 {
          head := ptr;
          next, prev := next[ptr := head], prev[ptr := head];
          LinkAloneKeepsRing(old(next), old(prev), ptr);
        } else {
          next := next[ptr := head];
          prev := prev[ptr := prev[head]];
          next := next[prev[head] := ptr];
          prev := prev[head := ptr];
          head := ptr;
          LinkFrontKeepsRing(nodes0, old(next), old(prev), ptr);
        }
      } else {
        var cur := Locate(index);
        next := next[ptr := next[cur]];
        prev := prev[ptr := cur];
        prev := prev[next[cur] := ptr];
        next := next[cur := ptr];
        LinkAfterKeepsRing(nodes0, old(next), old(prev), index, ptr);
      }
      Nodes := InsertedAt(nodes0, index, ptr);
      size := size + 1;
      HoldsAfterInsert(data0, nodes0, contents0, index, value);
      Contents := InsertedAt(contents0, index, value);
      r := Done;
    }

    /**
     * The insert its documentation describes: value becomes the element at
     * index 1..size + 1.  It differs from Insert only in splicing the new
     * node in after position index - 1 rather than after position index.
     */
    method InsertAsDocumented(index: int, value: int) returns (r: Outcome)
      requires Valid()
      modifies this
      ensures Valid()
      ensures r == if 1 <= index <= old(size) + 1 then Done else Failed(IndexOutOfRange)
      ensures r.Done? ==> Contents == InsertedAsDocumented(old(Contents), index, value)
      ensures r.Done? ==> Nodes == InsertedAsDocumented(old(Nodes), index, old(|data|))
      ensures r.Done? ==> data == old(data) + [value]
      ensures r.Failed? ==> unchanged(this)
    {
      if index < 1 || index > GetLength() + 1 {
        return Failed(IndexOutOfRange);
      }
      if index == 1 {
        InsertAgreesAtEnds(Nodes, |data|);
        InsertAgreesAtEnds(Contents, value);
        r := Insert(1, value);
      } else {
        LinkBefore(index, value);
        r := Done;
      }
    }

    /** InsertAsDocumented past position 1: a new node spliced in after position index - 1. */
    method LinkBefore(index: int, value: int)
      requires Valid() && 2 <= index <= size + 1
      modifies this
      ensures Valid()
      ensures Contents == InsertedAsDocumented(old(Contents), index, value)
      ensures Nodes == InsertedAsDocumented(old(Nodes), index, old(|data|))
      ensures data == old(data) + [value]
    {
      ghost var nodes0, contents0, data0 := Nodes, Contents, data;
      var ptr := NewNode(value);
      var cur := Locate(index - 1);
      next := next[ptr := next[cur]];
      prev := prev[ptr := cur];
      prev := prev[next[cur] := ptr];
      next := next[cur := ptr];
      LinkBeforeKeepsRing(nodes0, old(next), old(prev), index, ptr);
      Nodes := InsertedAsDocumented(nodes0, index, ptr);
      size := size + 1;
      HoldsAfterInsertAsDocumented(data0, nodes0, contents0, index, value);
      Contents := InsertedAsDocumented(contents0, index, value);
    }

    /**
     * Removes the element at index 1..size.  Removing position 1 moves the
     * head to the old second node; the removed node's links are cleared.
     */
    method Remove(index: int) returns (r: Outcome)
      requires Valid()
      modifies this
      ensures Valid()
      ensures r == if old(size) == 0 then Failed(EmptyList)
                   else if 1 <= index <= old(size) then Done
                   else Failed(IndexOutOfRange)
      ensures r.Done? ==> Contents == RemovedAt(old(Contents), index)
      ensures r.Done? ==> Nodes == RemovedAt(old(Nodes), index)
      ensures r.Done? ==> data == old(data)
      ensures r.Done? ==> next[old(Nodes)[index - 1]] == Null && prev[old(Nodes)[index - 1]] == Null
      ensures r.Done? && index == 1 && size > 0 ==> head == old(Nodes)[1]
      ensures r.Failed? ==> unchanged(this)
    {
      if GetLength() == 0 {
        return Failed(EmptyList);
      }
      if index < 1 || index > GetLength() {
        return Failed(IndexOutOfRange);
      }
      Unlink(index);
      r := Done;
    }

    /** The body of a remove whose checks have passed: unlinks and releases the node at index. */
    method Unlink(index: int)
      requires Valid() && 1 <= index <= size
      modifies this
      ensures Valid()
      ensures Contents == RemovedAt(old(Contents), index)
      ensures Nodes == RemovedAt(old(Nodes), index)
      ensures data == old(data)
      ensures next[old(Nodes)[index - 1]] == Null && prev[old(Nodes)[index - 1]] == Null
      ensures index == 1 && size > 0 ==> head == old(Nodes)[1]
    {
      ghost var nodes0, contents0, next0, prev0 := Nodes, Contents, next, prev;
      var ptr := Locate(index);
      if index == 1 {
        head := next[head];
        prev := prev[head := prev[ptr]];
        next := next[prev[ptr] := head];
        UnlinkFrontKeepsRing(nodes0, next0, prev0);
      } else {
        var cur;
        if index < GetLength() / 2 {
          cur := FindForward(index - 1);
        } else {
          cur := FindReverse(index - 1);
        }
        UnlinkAfterKeepsRing(nodes0, next0, prev0, index);
        next := next[cur := next[ptr]];
        prev := prev[next[ptr] := cur];
      }
      next, prev := next[ptr := Null], prev[ptr := Null];
      Nodes := RemovedAt(nodes0, index);
      HoldsAfterRemove(data, nodes0, contents0, index);
      Contents := RemovedAt(contents0, index);
      size := size - 1;
    }

    /**
     * Exchanges the payloads at index1 and index2; no link changes.  Needs
     * at least two elements and both positions in 1..size.
     */
    method Swap(index1: int, index2: int) returns (r: Outcome)
      requires Valid()
      modifies this
      ensures Valid()
      ensures r == if old(size) < 2 then Failed(TooSmallToSwap)
                   else if index1 < 1 || index1 > old(size) then Failed(Index1OutOfRange)
                   else if index2 < 1 || index2 > old(size) then Failed(Index2OutOfRange)
                   else Done
      ensures r.Done? ==> Contents == Swapped(old(Contents), index1, index2)
      ensures r.Failed? ==> Contents == old(Contents) && data == old(data)
      ensures Nodes == old(Nodes) && next == old(next) && prev == old(prev)
      ensures head == old(head) && size == old(size)
    {
      if GetLength() < 2 {
        return Failed(TooSmallToSwap);
      }
      if index1 < 1 || index1 > GetLength() {
        return Failed(Index1OutOfRange);
      }
      if index2 < 1 || index2 > GetLength() {
        return Failed(Index2OutOfRange);
      }
      var first := Locate(index1);
      var second := Locate(index2);
      var temp := data[first];
      data := data[first := data[second]];
      data := data[second := temp];
      HoldsAfterSwap(old(data), Nodes, Contents, index1, index2);
      Contents := Swapped(Contents, index1, index2);
      r := Done;
    }

    /** The inner scan of the selection sort: the first position among from..size holding a least element. */
    method LeastFrom(from: int) returns (min: int)
      requires Valid() && 1 <= from <= size
      ensures from <= min <= size && LeastIn(Contents, from - 1, size, min - 1)
      ensures forall k :: from - 1 <= k < min - 1 ==> Contents[min - 1] < Contents[k]
    {
      min := from;
      var i := from + 1;
      while i <= GetLength()
        invariant from + 1 <= i <= size + 1 && from <= min < i
        invariant LeastIn(Contents, from - 1, i - 1, min - 1)
        invariant forall k :: from - 1 <= k < min - 1 ==> Contents[min - 1] < Contents[k]
        decreases size + 1 - i
      {
        var atI := FindForward(i);
        var atMin := FindForward(min);
        if data[atI] < data[atMin] {
          min := i;
        }
        i := i + 1;
      }
    }

    /**
     * Selection sort over positions: for each position, the first least
     * element of the rest is swapped into it.  Fewer than two elements are
     * rejected as already sorted.
     */
    method Sort() returns (r: Outcome)
      requires Valid()
      modifies this
      ensures Valid()
      ensures r == if old(size) < 2 then Failed(AlreadySorted) else Done
      ensures Sorted(Contents) && multiset(Contents) == multiset(old(Contents))
      ensures r.Failed? ==> Contents == old(Contents) && data == old(data)
      ensures Nodes == old(Nodes) && next == old(next) && prev == old(prev)
      ensures head == old(head) && size == old(size)
    {
      if GetLength() < 2 {
        return Failed(AlreadySorted);
      }
      var curr := 1;
      while curr <= GetLength()
        invariant Valid() && 1 <= curr <= size + 1
        invariant Nodes == old(Nodes) && next == old(next) && prev == old(prev)
        invariant head == old(head) && size == old(size)
        invariant multiset(Contents) == multiset(old(Contents))
        invariant SortedUpTo(Contents, curr - 1)
        decreases size + 1 - curr
      {
        var min := LeastFrom(curr);
        SelectionStep(Contents, curr, min);
        if min != curr {
          var outcome := Swap(curr, min);
        } else {
          SwapSelf(Contents, curr);
        }
        curr := curr + 1;
      }
      r := Done;
    }

    /** The element at index 1..size. */
    method Retrieve(index: int) returns (r: Result<int>)
      requires Valid()
      ensures r == if 1 <= index <= |Contents| then Ok(Contents[index - 1]) else Err(IndexOutOfRange)
    {
      if index > GetLength() || index < 1 {
        return Err(IndexOutOfRange);
      }
      var p := Locate(index);
      return Ok(data[p]);
    }

    /** The elements from the first position to the last, as printed. */
    method PrintForward() returns (r: Result<seq<int>>)
      requires Valid()
      ensures r == if Contents == [] then Err(EmptyList) else Ok(Contents)
    {
      if IsEmpty() {
        return Err(EmptyList);
      }
      var out := [];
      var i := 1;
      while i <= GetLength()
        invariant 1 <= i <= size + 1
        invariant out == Contents[..i - 1]
      {
        var p := FindForward(i);
        out := out + [data[p]];
        i := i + 1;
      }
      assert Contents[..size] == Contents;
      return Ok(out);
    }

    /** The elements from the last position to the first, as printed. */
    method PrintReverse() returns (r: Result<seq<int>>)
      requires Valid()
      ensures r == if Contents == [] then Err(EmptyList) else Ok(Reversed(Contents))
    {
      if IsEmpty() {
        return Err(EmptyList);
      }
      var out := [];
      var i := GetLength();
      while i >= 1
        invariant 0 <= i <= size
        decreases i
        invariant out == Reversed(Contents[i..])
      {
        var p := FindReverse(i);
        assert Contents[i - 1..][1..] == Contents[i..];
        out := out + [data[p]];
        i := i - 1;
      }
      return Ok(out);
    }
  }
}
