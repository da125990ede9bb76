/**
 * The singly linked container: a chain of `ChainElement` nodes reached from `start`, a cached
 * reference `end` to the last node and a counter `elementCount`.
 *
 * The ghost field `Nodes` lists the nodes in chain order and `Contents` their values; `Valid()`
 * ties the real fields to them, so every operation is specified by its effect on `Contents`.
 */
module Chain {
  import opened Outcomes
  import opened ChainSpec

  /** One link of the chain: a value and the next link, or null at the end. */
  class ChainElement<T> {
    var value: T
    var link: ChainElement?<T>

    constructor (value: T)
      ensures this.value == value && link == null
    {
      this.value := value;
      link := null;
    }
  }

  class LinkedListContainer<T(==)> {
    var start: ChainElement?<T>
    var end: ChainElement?<T>
    var elementCount: int

    ghost var Contents: seq<T>
    ghost var Nodes: seq<ChainElement<T>>
    ghost var Repr: set<object>

    /**
     * The representation invariant: `elementCount` is the number of nodes reachable from `start`;
     * the nodes are distinct (so the chain has no cycle) and hold `Contents` in order; `start` is
     * the first node and `end` the last, whose `link` is null; both are null exactly when the
     * chain is empty.
     */
    ghost predicate Valid()
      reads this, Repr
      ensures Valid() ==> this in Repr
    {
      this in Repr &&
      elementCount == |Nodes| == |Contents| &&
      (forall i :: 0 <= i < |Nodes| ==> Nodes[i] in Repr) &&
      (forall i, j :: 0 <= i < j < |Nodes| ==> Nodes[i] != Nodes[j]) &&
      (forall i :: 0 <= i < |Nodes| ==> Nodes[i].value == Contents[i]) &&
      (forall i :: 0 <= i < |Nodes| - 1 ==> Nodes[i].link == Nodes[i + 1]) &&
      if Nodes == [] then start == null && end == null
      else start == Nodes[0] && end == Nodes[|Nodes| - 1] && end.link == null
    }

    /** An empty chain. */
    constructor ()
      ensures Valid() && fresh(Repr)
      ensures Contents == []
    {
      start, end, elementCount := null, null, 0;
      Contents, Nodes, Repr := [], [], {this};
    }

    /** `add`: appends a non-null item after the last node; a null item throws and changes nothing. */
    method Add(item: Option<T>) returns (outcome: Outcome)
      requires Valid()
      modifies Repr
      ensures Valid() && fresh(Repr - old(Repr))
      ensures item.None? ==> outcome == Fail(IllegalArgument) && Repr == old(Repr) && unchanged(Repr)
      ensures item.Some? ==> outcome == Pass && Contents == old(Contents) + [item.value]
    {
      if item.None? {
        return Fail(IllegalArgument);
      }
      var newElement := new ChainElement(item.value);
      if start == null {
        start := newElement;
        end := newElement;
      } else {
        end.link := newElement;
        end := newElement;
      }
      elementCount := elementCount + 1;
      Contents, Nodes, Repr := Contents + [item.value], Nodes + [newElement], Repr + {newElement};
      return Pass;
    }

    /** `get`: the value at `position`, or IndexOutOfBounds outside [0, length). */
    method Get(position: int) returns (r: Result<T>)
      requires Valid()
      ensures r == if 0 <= position < |Contents| then Ok(Contents[position]) else Err(IndexOutOfBounds)
    {
      var check := ValidatePosition(position);
      if check.Fail? {
        return Err(check.error);
      }
      var targetElement := LocateElement(position);
      return Ok(targetElement.value);
    }

    /**
     * `removeAt`: removes the node at `position` and returns its value; the head, the tail and a
     * middle node are each unlinked so that `end` stays the last node. Outside [0, length) it
     * throws IndexOutOfBounds and changes nothing.
     */
    method RemoveAt(position: int) returns (r: Result<T>)
      requires Valid()
      modifies Repr
      ensures Valid() && Repr <= old(Repr)
      ensures if 0 <= position < |old(Contents)| then
                r == Ok(old(Contents)[position]) &&
                Contents == old(Contents)[..position] + old(Contents)[position + 1..]
              else
                r == Err(IndexOutOfBounds) && unchanged(Repr)
    {
      var check := ValidatePosition(position);
      if check.Fail? {
        return Err(check.error);
      }
      if position == 0 {
        var first := ExtractFirstElement();
        return Ok(first);
      }
      var precedingElement := LocateElement(position - 1);
      assert precedingElement.link == Nodes[position];
      var extractedValue := precedingElement.link.value;
      UnlinkNext(precedingElement, position - 1);
      return Ok(extractedValue);
    }

    /**
     * `removeItem`: unlinks the first node whose value equals `item` and answers true; answers
     * false, changing nothing, for a null item, an empty chain or an absent item.
     */
    method RemoveItem(item: Option<T>) returns (removed: bool)
      requires Valid()
      modifies Repr
      ensures Valid() && Repr <= old(Repr)
      ensures removed <==> item.Some? && item.value in old(Contents)
      ensures Contents == if item.Some? then RemoveFirst(old(Contents), item.value) else old(Contents)
      ensures !removed ==> unchanged(Repr)
    {
      if item.None? || start == null {
        return false;
      }
      var x := item.value;
      if start.value == x {
        var _ := ExtractFirstElement();
        return true;
      }
      var currentElement := start;
      ghost var i := 0;
      while currentElement.link != null && currentElement.link.value != x
        invariant 0 <= i < |Nodes| && currentElement == Nodes[i]
        invariant currentElement.link == if i + 1 < |Nodes| then Nodes[i + 1] else null
        invariant forall j :: 0 <= j <= i ==> Contents[j] != x
        decreases |Nodes| - i
      {
        currentElement := currentElement.link;
        i := i + 1;
      }
      ghost var before := Contents;
      if currentElement.link != null {
        IndexOfUnique(before, x, i + 1);
        RemoveFirstSplices(before, x);
        UnlinkNext(currentElement, i);
        return true;
      }
      RemoveFirstSplices(before, x);
      return false;
    }

    /** `getLength`: the counter always equals the number of elements. */
    function GetLength(): (n: int)
      reads this, Repr
      requires Valid()
      ensures n == |Contents|
    {
      elementCount
    }

    /** `isChainEmpty`: true exactly when the chain holds no element. */
    function IsChainEmpty(): (b: bool)
      reads this, Repr
      requires Valid()
      ensures b <==> Contents == []
    {
      elementCount == 0
    }

    /** `wipeAll`: from any state, however broken, leaves a valid empty chain. */
    method WipeAll()
      modifies this
      ensures Valid() && Repr == {this}
      ensures Contents == []
    {
      start := null;
      end := null;
      elementCount := 0;
      Contents, Nodes, Repr := [], [], {this};
    }

    /** `hasElement`: true exactly when some element equals the non-null `item`. */
    method HasElement(item: Option<T>) returns (b: bool)
      requires Valid()
      ensures b <==> item.Some? && item.value in Contents
    {
      var position := FindPosition(item);
      b := position != -1;
    }

    /** `findPosition`: the position of the first element equal to `item`; -1 for null or absent. */
    method FindPosition(item: Option<T>) returns (position: int)
      requires Valid()
      ensures position == if item.None? then -1 else IndexOf(Contents, item.value)
    {
      if item.None? {
        return -1;
      }
      var currentElement := start;
      var currentPosition := 0;
      while currentElement != null
        invariant 0 <= currentPosition <= |Nodes|
        invariant currentElement == if currentPosition < |Nodes| then Nodes[currentPosition] else null
        invariant item.value !in Contents[..currentPosition]
        decreases |Nodes| - currentPosition
      {
        if currentElement.value == item.value {
          IndexOfUnique(Contents, item.value, currentPosition);
          return currentPosition;
        }
        assert currentElement.link == if currentPosition + 1 < |Nodes| then Nodes[currentPosition + 1] else null;
        currentElement := currentElement.link;
        currentPosition := currentPosition + 1;
        assert Contents[..currentPosition] == Contents[..currentPosition - 1] + [Contents[currentPosition - 1]];
      }
      assert Contents[..currentPosition] == Contents;
      return -1;
    }

    /** `extractFirstElement`: unlinks the head and returns its value; the chain must not be empty. */
    method ExtractFirstElement() returns (v: T)
      requires Valid() && Contents != []
      modifies this
      ensures Valid() && Repr <= old(Repr)
      ensures v == old(Contents)[0] && Contents == old(Contents)[1..]
    {
      v := start.value;
      ghost var gone := start;
      start := start.link;
      if start == null {
        end := null;
      }
      elementCount := elementCount - 1;
      Contents, Nodes, Repr := Contents[1..], Nodes[1..], Repr - {gone};
    }

    /**
     * Unlinks the node after `precedingElement`, the node at position `k`: its `link` skips to
     * the node after, `end` moves back to it when the removed node was the last, and the counter
     * drops by one. This is the step `removeAt` and `removeItem` share.
     */
    method UnlinkNext(precedingElement: ChainElement<T>, ghost k: nat)
      requires Valid() && k + 1 < |Nodes| && precedingElement == Nodes[k]
      modifies this, precedingElement
      ensures Valid() && Repr <= old(Repr)
      ensures Contents == old(Contents)[..k + 1] + old(Contents)[k + 2..]
    {
      ghost var gone := precedingElement.link;
      ghost var oldNodes := Nodes;
      assert gone == Nodes[k + 1];
      assert gone.link == if k + 2 < |Nodes| then Nodes[k + 2] else null;
      precedingElement.link := precedingElement.link.link;
      if precedingElement.link == null {
        end := precedingElement;
      }
      elementCount := elementCount - 1;
      Contents := Contents[..k + 1] + Contents[k + 2..];
      Nodes := Nodes[..k + 1] + Nodes[k + 2..];
      Repr := Repr - {gone};
      forall j | 0 <= j < |Nodes| - 1
        ensures Nodes[j].link == Nodes[j + 1]
      {
        if j < k {
          assert Nodes[j] == oldNodes[j] && Nodes[j + 1] == oldNodes[j + 1] && oldNodes[j] != oldNodes[k];
        } else if k < j {
          assert Nodes[j] == oldNodes[j + 1] && Nodes[j + 1] == oldNodes[j + 2] && oldNodes[j + 1] != oldNodes[k];
        }
      }
      forall j | 0 <= j < |Nodes|
        ensures Nodes[j] in Repr && Nodes[j].value == Contents[j]
      {
        if j <= k {
          assert Nodes[j] == oldNodes[j] != oldNodes[k + 1];
        } else {
          assert Nodes[j] == oldNodes[j + 1] != oldNodes[k + 1];
        }
      }
    }

    /** `locateElement`: walks `position` links from `start`; callers have validated `position`. */
    method LocateElement(position: int) returns (e: ChainElement<T>)
      requires Valid() && 0 <= position < |Contents|
      ensures e == Nodes[position] && e.value == Contents[position]
    {
      e := start;
      for i := 0 to position
        invariant e == Nodes[i]
      {
        assert e.link == Nodes[i + 1];
        e := e.link;
      }
    }

    /** `validatePosition`: passes exactly for positions inside [0, length), else IndexOutOfBounds. */
    function ValidatePosition(position: int): (o: Outcome)
      reads this, Repr
      requires Valid()
      ensures o.Pass? <==> 0 <= position < |Contents|
      ensures o.Fail? ==> o.error == IndexOutOfBounds
    {
      if position < 0 || position >= elementCount then Fail(IndexOutOfBounds) else Pass
    }

    /**
     * The shape of any chain reachable from `start`, valid or not: `Nodes` lists the distinct
     * nodes in link order from `start`, and the last one links either to null or back to one of
     * them (a "lasso"); `back` is that index, `|Nodes|` standing for null.
     */
    ghost predicate Chained(back: int)
      reads this, Nodes
    {
      (forall i, j :: 0 <= i < j < |Nodes| ==> Nodes[i] != Nodes[j]) &&
      (forall i :: 0 <= i < |Nodes| - 1 ==> Nodes[i].link == Nodes[i + 1]) &&
      0 <= back <= |Nodes| &&
      (Nodes == [] ==> start == null) &&
      (Nodes != [] ==>
         start == Nodes[0] &&
         Nodes[|Nodes| - 1].link == (if back < |Nodes| then Nodes[back] else null))
    }

    /** The chain closes on itself: its last node links back into it instead of to null. */
    ghost predicate ClosesLoop()
      reads this, Nodes
    {
      Nodes != [] && Nodes[|Nodes| - 1].link != null
    }

    /** A valid chain has the null-terminated shape: it is `Chained` with no node linked back to. */
    lemma ValidIsChained()
      requires Valid()
      ensures Chained(|Nodes|) && !ClosesLoop()
    {
    }

    /** Following `link` from node `i` leads to node `NextIndex(i, |Nodes|, back)`, or to null. */
    lemma LinkOf(i: int, back: int)
      requires Chained(back) && 0 <= i < |Nodes|
      ensures Nodes[i].link ==
        if NextIndex(i, |Nodes|, back) < |Nodes| then Nodes[NextIndex(i, |Nodes|, back)] else null
    {
    }

    /**
     * `hasCycle`: Floyd's tortoise and hare. `slow` advances one link and `fast` two per step;
     * the answer is true exactly when the chain closes on itself, and so never on a valid chain.
     * On a lasso, once `slow` is on the loop the distance from `fast` forward to `slow` shrinks
     * by one per step, so they meet.
     */
    method HasCycle(ghost back: int) returns (cyclic: bool)
      requires Chained(back)
      ensures cyclic <==> ClosesLoop()
      ensures Valid() ==> !cyclic
    {
      if start == null {
        return false;
      }
      ghost var n := |Nodes|;
      var slow: ChainElement?<T> := start;
      var fast: ChainElement?<T> := start;
      ghost var sp, fp := 0, 0;
      while fast != null && fast.link != null
        invariant 0 <= sp < n && 0 <= fp <= n
        invariant slow == Nodes[sp]
        invariant fast == if fp < n then Nodes[fp] else null
        invariant back < n ==> fp < n
        invariant sp < back ==> sp <= fp
        invariant back <= sp ==> back <= fp
        decreases if sp < back then back - sp else 0,
          if sp < back || sp == fp then n - back else Gap(fp, sp, n, back)
      {
        LinkOf(sp, back);
        LinkOf(fp, back);
        ghost var fp1 := NextIndex(fp, n, back);
        LinkOf(fp1, back);
        slow := slow.link;
        fast := fast.link.link;
        sp, fp := NextIndex(sp, n, back), NextIndex(fp1, n, back);
        if slow == fast {
          return true;
        }
      }
      if fp < n {
        LinkOf(fp, back);
      }
      return false;
    }
  }

  /** The index one `link` after index `i` in a chain of `n` nodes whose last links to `back`. */
  ghost function NextIndex(i: int, n: int, back: int): int
  {
    if i < n - 1 then i + 1 else back
  }

  /** On the loop `back..n-1`, the number of steps from index `fp` forward to index `sp`. */
  ghost function Gap(fp: int, sp: int, n: int, back: int): int
  {
    if fp <= sp then sp - fp else sp - fp + (n - back)
  }

  /** `toString`, for a chain of strings: "[]" when empty, else the elements joined by ", " in brackets. */
  method ToString(chain: LinkedListContainer<string>) returns (s: string)
    requires chain.Valid()
    ensures s == Rendered(chain.Contents)
  {
    if chain.start == null {
      return "[]";
    }
    var resultBuilder := "[";
    var currentElement := chain.start;
    ghost var i := 0;
    while currentElement != null
      invariant 0 <= i <= |chain.Nodes|
      invariant currentElement == if i < |chain.Nodes| then chain.Nodes[i] else null
      invariant resultBuilder == "[" + Join(chain.Contents[..i]) + (if 0 < i < |chain.Contents| then ", " else "")
      decreases |chain.Nodes| - i
    {
      JoinPrefixStep(chain.Contents, i);
      resultBuilder := resultBuilder + currentElement.value;
      assert currentElement.link == if i + 1 < |chain.Nodes| then chain.Nodes[i + 1] else null;
      if currentElement.link != null {
        resultBuilder := resultBuilder + ", ";
      }
      currentElement := currentElement.link;
      i := i + 1;
    }
    assert chain.Contents[..i] == chain.Contents;
    resultBuilder := resultBuilder + "]";
    return resultBuilder;
  }
}
