// binary_heap: an implicit binary heap in a vector. The element at index i has
// its children at 2i + 1 and 2i + 2; no child compares less than its parent,
// so the front is a least element. The comparator is a strict order induced by
// a key: x compares less than y when Key(x) < Key(y) (std::less on integers is
// the identity key, std::greater its negation).
module BinaryHeaps {
  import opened Util

  // The parent of a non-root index.
  function Up(i: nat): (r: nat)
    requires i > 0
    ensures r < i && (i == 2 * r + 1 || i == 2 * r + 2)
  {
    (i - 1) / 2
  }

  // The left child of an index.
  function Down(i: nat): (r: nat)
    ensures r > i && Up(r) == i && Up(r + 1) == i
  {
    2 * i + 1
  }

  // Every child whose parent is at lo or later compares no less than its parent.
  ghost predicate HeapFrom<T>(key: T -> int, c: seq<T>, lo: nat)
  {
    forall i :: 0 < i < |c| && Up(i) >= lo ==> key(c[Up(i)]) <= key(c[i])
  }

  // The heap property.
  ghost predicate IsHeap<T>(key: T -> int, c: seq<T>)
  {
    HeapFrom(key, c, 0)
  }

  // The heap property from lo on, except below index k; k's own parent (when
  // it is counted) is already no greater than k's children.
  ghost predicate HeapExceptBelow<T>(key: T -> int, c: seq<T>, lo: nat, k: nat)
  {
    (forall i :: 0 < i < |c| && Up(i) >= lo && Up(i) != k ==> key(c[Up(i)]) <= key(c[i]))
    && (k > 0 && Up(k) >= lo ==>
      forall i :: 0 < i < |c| && Up(i) == k ==> key(c[Up(k)]) <= key(c[i]))
  }

  // The heap property except between k and its parent; k's parent is already
  // no greater than k's children.
  ghost predicate HeapExceptAbove<T>(key: T -> int, c: seq<T>, k: nat)
  {
    (forall i :: 0 < i < |c| && i != k ==> key(c[Up(i)]) <= key(c[i]))
    && (k > 0 ==> forall i :: 0 < i < |c| && Up(i) == k ==> key(c[Up(k)]) <= key(c[i]))
  }

  // The front of a heap is a least element.
  lemma {:induction false} FrontLeast<T>(key: T -> int, c: seq<T>, i: nat)
    requires IsHeap(key, c) && i < |c|
    ensures key(c[0]) <= key(c[i])
    decreases i
  {
    if i > 0 {
      FrontLeast(key, c, Up(i));
    }
  }

  // A heap whose element at k is replaced: a greater value must move down, a
  // value no greater must move up.
  lemma Replaced<T>(key: T -> int, c: seq<T>, k: nat, v: T)
    requires IsHeap(key, c) && k < |c|
    ensures key(c[k]) <= key(v) ==> HeapExceptBelow(key, c[k := v], 0, k)
    ensures key(v) <= key(c[k]) ==> HeapExceptAbove(key, c[k := v], k)
  {
  }

  // The sequence with the elements at i and j exchanged.
  function Swapped<T>(c: seq<T>, i: nat, j: nat): (r: seq<T>)
    requires i < |c| && j < |c|
    ensures |r| == |c| && r[i] == c[j] && r[j] == c[i]
    ensures forall k :: 0 <= k < |c| && k != i && k != j ==> r[k] == c[k]
    ensures multiset(r) == multiset(c)
  {
    c[i := c[j]][j := c[i]]
  }

  // One step of sift_down: k's lesser child compares less than k, and the two
  // are exchanged; the hole moves to the child.
  lemma SwapDown<T>(key: T -> int, c: seq<T>, lo: nat, k: nat, child: nat)
    requires k < |c| && lo <= k && HeapExceptBelow(key, c, lo, k)
    requires 0 < child < |c| && Up(child) == k && key(c[child]) < key(c[k])
    requires forall i :: 0 < i < |c| && Up(i) == k ==> key(c[child]) <= key(c[i])
    ensures HeapExceptBelow(key, Swapped(c, k, child), lo, child)
  {
    var d := Swapped(c, k, child);
    forall i | 0 < i < |d| && Up(i) >= lo && Up(i) != child ensures key(d[Up(i)]) <= key(d[i]) {
      if Up(i) == k {
      } else if i == k {
      }
    }
  }

  // One step of sift_up: k compares less than its parent, and the two are
  // exchanged; the hole moves to the parent.
  lemma SwapUp<T>(key: T -> int, c: seq<T>, k: nat)
    requires 0 < k < |c| && HeapExceptAbove(key, c, k) && key(c[k]) < key(c[Up(k)])
    ensures HeapExceptAbove(key, Swapped(c, k, Up(k)), Up(k))
  {
  }

  // pop's first step: with the front swapped to the back and the back dropped,
  // only the new front may be out of place.
  lemma DropBack<T>(key: T -> int, c: seq<T>)
    requires IsHeap(key, c) && |c| > 1
    ensures var d := Swapped(c, 0, |c| - 1)[..|c| - 1];
      HeapExceptBelow(key, d, 0, 0) && multiset(d) == multiset(c) - multiset{c[0]}
  {
    var s := Swapped(c, 0, |c| - 1);
    assert s == s[..|c| - 1] + [c[0]];
  }

  // Dropping the back keeps the heap property.
  lemma DropLast<T>(key: T -> int, c: seq<T>)
    requires IsHeap(key, c) && c != []
    ensures IsHeap(key, c[..|c| - 1]) && multiset(c[..|c| - 1]) == multiset(c) - multiset{c[|c| - 1]}
  {
    assert c == c[..|c| - 1] + [c[|c| - 1]];
  }

  // erase's bookkeeping: taking the back out and putting it back in place of
  // the erased element leaves the multiset less the erased one.
  lemma Reinserted<T>(m: multiset<T>, back: T, x: T)
    requires back in m && x in m - multiset{back}
    ensures m - multiset{back} - multiset{x} + multiset{back} == m - multiset{x}
  {
  }

  // sift_down stops: k's lesser child does not compare less than k (or k has
  // no children, then child is past the end).
  lemma DownSettled<T>(key: T -> int, c: seq<T>, lo: nat, k: nat, child: nat)
    requires k < |c| && lo <= k && HeapExceptBelow(key, c, lo, k)
    requires 0 < child < |c| && Up(child) == k && key(c[k]) <= key(c[child])
    requires forall i :: 0 < i < |c| && Up(i) == k ==> key(c[child]) <= key(c[i])
    ensures HeapFrom(key, c, lo)
  {
  }

  // sift_down stops at an index without children.
  lemma NoChildren<T>(key: T -> int, c: seq<T>, lo: nat, k: nat)
    requires HeapExceptBelow(key, c, lo, k) && Down(k) >= |c|
    ensures HeapFrom(key, c, lo)
  {
  }

  // The child sift_down picks compares no greater than any child of k.
  lemma LesserChild<T>(key: T -> int, c: seq<T>, k: nat, child: nat)
    requires Down(k) < |c| && (child == Down(k) || child == Down(k) + 1) && child < |c|
    requires child == Down(k) ==> Down(k) + 1 >= |c| || key(c[Down(k)]) <= key(c[Down(k) + 1])
    requires child == Down(k) + 1 ==> key(c[child]) < key(c[Down(k)])
    ensures 0 < child && Up(child) == k
    ensures forall i :: 0 < i < |c| && Up(i) == k ==> key(c[child]) <= key(c[i])
  {
  }

  // ---------------------------------------------------------------------------
  // is_heap as the library writes it: it walks the leftmost path only, and
  // reads the element at index size when the path ends exactly there (None
  // stands for that read past the end).

  function IsHeapAsWritten<T>(key: T -> int, c: seq<T>, i: nat): (r: Option<bool>)
    requires i < |c|
    decreases |c| - i
  {
    var child := Down(i);
    if child > |c| then Some(true)
    else if child == |c| then None
    else if key(c[child]) < key(c[i]) then Some(false)
    else IsHeapAsWritten(key, c, child)
  }

  // [0, 1, -5, 2] is not a heap (-5 sits below 0), yet the leftmost walk
  // 0, 1, 3 finds nothing wrong; and on [0] the walk reads index 1.
  lemma IsHeapAsWrittenMissesRightChild()
    ensures IsHeapAsWritten(x => x, [0, 1, -5, 2], 0) == Some(true)
    ensures !IsHeap(x => x, [0, 1, -5, 2])
    ensures IsHeap(x => x, [0]) && IsHeapAsWritten(x => x, [0], 0) == None
  {
    var c := [0, 1, -5, 2];
    assert Up(2) == 0 && c[2] < c[0];
    assert IsHeapAsWritten(x => x, c, 3) == Some(true);
    assert IsHeapAsWritten(x => x, c, 1) == Some(true);
  }

  // ---------------------------------------------------------------------------
  // erase as the library writes it: the back element is moved out and popped,
  // then written over index; erasing the back itself leaves index one past
  // the shortened vector (None).

  function EraseAsWritten<T>(c: seq<T>, index: nat): (r: Option<seq<T>>)
    requires index < |c|
    ensures r.Some? <==> index < |c| - 1
  {
    var shorter := c[..|c| - 1];
    if index < |shorter| then Some(shorter[index := c[|c| - 1]]) else None
  }

  // erase(0) on a one-element heap is a call within range whose write is not.
  lemma EraseAsWrittenLastIndex()
    ensures IsHeap(x => x, [7]) && EraseAsWritten([7], 0) == None
  {
  }

  // ---------------------------------------------------------------------------
  // The class.

  class BinaryHeap<T> {
    const key: T -> int
    var container: seq<T>

    ghost predicate Valid()
      reads this
    {
      IsHeap(key, container)
    }

    constructor(key: T -> int)
      ensures this.key == key && container == [] && Valid()
    {
      this.key := key;
      container := [];
    }

    // Moves the element at index up while it compares less than its parent;
    // returns where it stopped.
    method SiftUp(index: nat) returns (r: nat)
      requires index < |container| && HeapExceptAbove(key, container, index)
      modifies this
      ensures IsHeap(key, container) && multiset(container) == old(multiset(container))
      ensures |container| == old(|container|) && r < |container| && container[r] == old(container[index])
    {
      r := index;
      var c := container;
      while r != 0
        invariant r < |c| == old(|container|) && HeapExceptAbove(key, c, r) && c[r] == old(container[index])
        invariant multiset(c) == old(multiset(container))
      {
        var parent := Up(r);
        if key(c[r]) < key(c[parent]) {
          SwapUp(key, c, r);
          c := Swapped(c, r, parent);
          r := parent;
        } else {
          break;
        }
      }
      container := c;
    }

    // Moves the element at index down, each time swapping it with its lesser
    // child (the left one on a tie) while that child compares less; returns
    // where it stopped. The heap property holds from lo on afterwards.
    method SiftDown(index: nat, ghost lo: nat) returns (r: nat)
      requires index < |container| && lo <= index && HeapExceptBelow(key, container, lo, index)
      modifies this
      ensures HeapFrom(key, container, lo) && multiset(container) == old(multiset(container))
      ensures |container| == old(|container|) && r < |container| && container[r] == old(container[index])
    {
      r := index;
      var c := container;
      var size := |c|;
      while true
        invariant size == |c| && lo <= r < size && c[r] == old(container[index])
        invariant HeapExceptBelow(key, c, lo, r)
        invariant multiset(c) == old(multiset(container))
        decreases size - r
      {
        var child := Down(r);
        if child >= size {
          NoChildren(key, c, lo, r);
          break;
        }
        if child + 1 < size && key(c[child + 1]) < key(c[child]) {
          child := child + 1;
        }
        LesserChild(key, c, r, child);
        if key(c[child]) < key(c[r]) {
          SwapDown(key, c, lo, r, child);
          c := Swapped(c, r, child);
          r := child;
        } else {
          DownSettled(key, c, lo, r, child);
          break;
        }
      }
      container := c;
    }

    // The heap property from index 0 on, built by sifting down every parent
    // from the last one back to the root.
    method MakeHeap()
      modifies this
      ensures Valid() && multiset(container) == old(multiset(container)) && |container| == old(|container|)
    {
      var i: nat := |container| / 2;
      while i > 0
        invariant i <= |container| / 2 && HeapFrom(key, container, i)
        invariant multiset(container) == old(multiset(container)) && |container| == old(|container|)
      {
        i := i - 1;
        var _ := SiftDown(i, i);
      }
    }

    function Size(): (r: nat)
      reads this
    {
      |container|
    }

    function Empty(): (r: bool)
      reads this
      ensures r <==> container == []
    {
      Size() == 0
    }

    method Clear()
      modifies this
      ensures container == [] && Valid()
    {
      container := [];
    }

    function Get(index: nat): (r: T)
      reads this
      requires index < |container|
    {
      container[index]
    }

    // top: the front, which no element compares less than.
    function Top(): (r: T)
      reads this
      requires Valid() && container != []
      ensures r in multiset(container)
      ensures forall x :: x in container ==> key(r) <= key(x)
    {
      FrontLeastAll(key, container);
      container[0]
    }

    // push: append, then sift up; returns where the new element ended.
    method Push(v: T) returns (r: nat)
      requires Valid()
      modifies this
      ensures Valid() && multiset(container) == old(multiset(container)) + multiset{v}
      ensures |container| == old(|container|) + 1 && r < |container| && container[r] == v
    {
      container := container + [v];
      r := SiftUp(|container| - 1);
    }

    // pop: the front is swapped with the back, popped, and the new front sifted
    // down.
    method Pop()
      requires Valid() && container != []
      modifies this
      ensures Valid() && multiset(container) == old(multiset(container)) - multiset{old(container[0])}
      ensures |container| == old(|container|) - 1
    {
      if |container| > 1 {
        var c := Swapped(container, 0, |container| - 1);
        DropBack(key, container);
        container := c[..|c| - 1];
        var _ := SiftDown(0, 0);
      } else {
        container := [];
      }
    }

    // extract_top: the old front, which is then popped.
    method ExtractTop() returns (r: T)
      requires Valid() && container != []
      modifies this
      ensures r == old(Top())
      ensures Valid() && multiset(container) == old(multiset(container)) - multiset{r}
      ensures |container| == old(|container|) - 1
    {
      r := container[0];
      Pop();
    }

    // exchange_top: the front is overwritten and sifted down.
    method ExchangeTop(v: T) returns (r: nat)
      requires Valid() && container != []
      modifies this
      ensures Valid() && multiset(container) == old(multiset(container)) - multiset{old(container[0])} + multiset{v}
      ensures |container| == old(|container|) && r < |container| && container[r] == v
    {
      container := container[0 := v];
      r := SiftDown(0, 0);
    }

    // update: overwrite index; a value the old one compares less than moves
    // down, any other moves up.
    method Update(index: nat, v: T) returns (r: nat)
      requires Valid() && index < |container|
      modifies this
      ensures Valid() && multiset(container) == old(multiset(container)) - multiset{old(container[index])} + multiset{v}
      ensures |container| == old(|container|) && r < |container| && container[r] == v
    {
      var down := key(container[index]) < key(v);
      Replaced(key, container, index, v);
      container := container[index := v];
      if down {
        r := SiftDown(index, 0);
      } else {
        r := SiftUp(index);
      }
    }

    // increase: overwrite index with a value that does not compare less, and
    // sift it down.
    method Increase(index: nat, v: T) returns (r: nat)
      requires Valid() && index < |container| && key(v) >= key(container[index])
      modifies this
      ensures Valid() && multiset(container) == old(multiset(container)) - multiset{old(container[index])} + multiset{v}
      ensures |container| == old(|container|) && r < |container| && container[r] == v
    {
      Replaced(key, container, index, v);
      container := container[index := v];
      r := SiftDown(index, 0);
    }

    // decrease: overwrite index with a value the old one does not compare less
    // than, and sift it up.
    method Decrease(index: nat, v: T) returns (r: nat)
      requires Valid() && index < |container| && key(container[index]) >= key(v)
      modifies this
      ensures Valid() && multiset(container) == old(multiset(container)) - multiset{old(container[index])} + multiset{v}
      ensures |container| == old(|container|) && r < |container| && container[r] == v
    {
      Replaced(key, container, index, v);
      container := container[index := v];
      r := SiftUp(index);
    }

    // erase: remove the element at index. The back element replaces it and is
    // moved to its place by update; erasing the back itself only pops it (see
    // EraseAsWritten for the library's version).
    method Erase(index: nat)
      requires Valid() && index < |container|
      modifies this
      ensures Valid() && multiset(container) == old(multiset(container)) - multiset{old(container[index])}
      ensures |container| == old(|container|) - 1
    {
      ghost var all, erased := multiset(container), container[index];
      var replacement := PopBack();
      if index < |container| {
        assert erased == container[index];
        Reinserted(all, replacement, erased);
        var _ := Update(index, replacement);
      }
    }

    // The back is moved out and popped.
    method PopBack() returns (back: T)
      requires Valid() && container != []
      modifies this
      ensures Valid() && container == old(container[..|container| - 1]) && back == old(container[|container| - 1])
      ensures multiset(container) == old(multiset(container)) - multiset{back}
    {
      back := container[|container| - 1];
      DropLast(key, container);
      container := container[..|container| - 1];
    }

    // merge: the other heap's elements are appended and the heap rebuilt.
    method Merge(rhs: BinaryHeap<T>)
      requires Valid()
      modifies this
      ensures Valid() && multiset(container) == old(multiset(container)) + old(multiset(rhs.container))
      ensures |container| == old(|container|) + old(|rhs.container|)
    {
      container := container + rhs.container;
      MakeHeap();
    }

    // is_heap, checking every child against its parent.
    method CheckHeap() returns (r: bool)
      ensures r <==> Valid()
    {
      var i := 1;
      while i < |container|
        invariant 1 <= i && (i <= |container| || |container| == 0)
        invariant forall j :: 0 < j < i && j < |container| ==> key(container[Up(j)]) <= key(container[j])
      {
        if key(container[i]) < key(container[Up(i)]) {
          return false;
        }
        i := i + 1;
      }
      return true;
    }
  }

  // Every element of a heap is no less than its front.
  lemma FrontLeastAll<T>(key: T -> int, c: seq<T>)
    requires IsHeap(key, c) && c != []
    ensures forall x :: x in c ==> key(c[0]) <= key(x)
  {
    forall x | x in c ensures key(c[0]) <= key(x) {
      var i :| 0 <= i < |c| && c[i] == x;
      FrontLeast(key, c, i);
    }
  }
}
