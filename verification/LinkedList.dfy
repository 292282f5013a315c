/** lib/list.cc: singly linked lists, plain and sorted, relinked in place. */
module LinkedLists {
  import opened Collections

  class ListElement<T> {
    var next: ListElement?<T>
    const item: T

    constructor (item: T)
      ensures this.item == item && next == null
    {
      this.item := item;
      next := null;
    }
  }

  /** The items of a chain of elements. */
  function Items<T>(spine: seq<ListElement<T>>): (s: seq<T>)
    ensures |s| == |spine|
  {
    seq(|spine|, i requires 0 <= i < |spine| => spine[i].item)
  }

  /** Each element points to the one after it, and the last one to nothing. */
  ghost predicate Linked<T>(spine: seq<ListElement<T>>)
    reads spine
  {
    && (forall i :: 0 <= i < |spine| - 1 ==> spine[i].next == spine[i + 1])
    && (spine != [] ==> spine[|spine| - 1].next == null)
  }

  /** No element of a chain that ends comes up twice. */
  lemma {:induction false} NotTwice<T>(spine: seq<ListElement<T>>, i: nat, j: nat)
    requires Linked(spine) && i < j < |spine|
    ensures spine[i] != spine[j]
    decreases |spine| - j
  {
    EndsAtLast(spine, i);
    if j < |spine| - 1 {
      NotTwice(spine, i + 1, j + 1);
    }
  }

  lemma EndsAtLast<T>(spine: seq<ListElement<T>>, i: nat)
    requires Linked(spine) && i < |spine|
    ensures spine[i].next == null <==> i == |spine| - 1
  {
    if i < |spine| - 1 {
      var e: ListElement<T> := spine[i + 1];
      assert spine[i].next == e;
    }
  }

  /** `s` without the first occurrence of `x`. */
  function Without<T(==)>(s: seq<T>, x: T): (r: seq<T>)
    ensures forall y :: y in r ==> y in s
  {
    if s == [] then [] else if s[0] == x then s[1..] else [s[0]] + Without(s[1..], x)
  }

  lemma {:induction false} WithoutAt<T>(s: seq<T>, k: nat, x: T)
    requires k < |s| && s[k] == x && x !in s[..k]
    ensures Without(s, x) == s[..k] + s[k + 1..]
  {
    if k > 0 {
      assert s[0] in s[..k];
      assert s[1..][..k - 1] == s[..k][1..] && s[1..][k..] == s[k + 1..];
      WithoutAt(s[1..], k - 1, x);
    }
  }

  /** A place in a sequence without repeats, taken out or filled with something new. */
  lemma NoRepeatsAt<T>(s: seq<T>, k: nat, x: T)
    requires NoRepeats(s) && k <= |s|
    ensures x !in s ==> NoRepeats(s[..k] + [x] + s[k..])
    ensures k < |s| ==> NoRepeats(s[..k] + s[k + 1..]) && s[k] !in s[..k] + s[k + 1..]
  {
  }

  /** `s` with `x` before the first item that compares greater, or at the end. */
  function SortedInsert<T>(s: seq<T>, x: T, compare: (T, T) -> int): seq<T> {
    if s == [] || compare(x, s[0]) < 0 then [x] + s else [s[0]] + SortedInsert(s[1..], x, compare)
  }

  lemma {:induction false} SortedInsertAt<T>(s: seq<T>, k: nat, x: T, compare: (T, T) -> int)
    requires k <= |s| && (k < |s| ==> compare(x, s[k]) < 0)
    requires forall i :: 0 <= i < k ==> compare(x, s[i]) >= 0
    ensures SortedInsert(s, x, compare) == s[..k] + [x] + s[k..]
  {
    if k > 0 {
      SortedInsertAt(s[1..], k - 1, x, compare);
      assert s[1..][..k - 1] == s[1..k];
    }
  }

  /** `compare` orders its arguments, with ties. */
  ghost predicate Ordering<T(!new)>(compare: (T, T) -> int) {
    && (forall x, y :: compare(x, y) < 0 <==> compare(y, x) > 0)
    && (forall x, y, z :: compare(x, y) <= 0 && compare(y, z) <= 0 ==> compare(x, z) <= 0)
  }

  ghost predicate Sorted<T(!new)>(s: seq<T>, compare: (T, T) -> int) {
    forall i, j :: 0 <= i < j < |s| ==> compare(s[i], s[j]) <= 0
  }

  lemma Beyond<T(!new)>(compare: (T, T) -> int, x: T, y: T, z: T)
    requires Ordering(compare) && compare(x, y) < 0 && compare(y, z) <= 0
    ensures compare(x, z) < 0
  {
    assert compare(z, x) <= 0 ==> compare(y, x) <= 0;
  }

  lemma PlaceKeepsSorted<T(!new)>(s: seq<T>, x: T, compare: (T, T) -> int, k: nat)
    requires Sorted(s, compare) && k <= |s|
    requires forall i :: 0 <= i < |s| ==> if i < k then compare(s[i], x) <= 0 else compare(x, s[i]) <= 0
    ensures Sorted(s[..k] + [x] + s[k..], compare)
  {
  }

  /** Where `SortedInsert` puts an item: behind all that compare lower or equal, before all others. */
  lemma PlaceOf<T(!new)>(s: seq<T>, x: T, compare: (T, T) -> int) returns (k: nat)
    requires Ordering(compare) && Sorted(s, compare)
    ensures k <= |s| && SortedInsert(s, x, compare) == s[..k] + [x] + s[k..]
    ensures forall i :: 0 <= i < |s| ==> if i < k then compare(s[i], x) <= 0 else compare(x, s[i]) < 0
  {
    k := 0;
    while k < |s| && compare(x, s[k]) >= 0
      invariant k <= |s| && forall i :: 0 <= i < k ==> compare(x, s[i]) >= 0
    {
      k := k + 1;
    }
    SortedInsertAt(s, k, x, compare);
    forall i | k < i < |s| ensures compare(x, s[i]) < 0 {
      Beyond(compare, x, s[k], s[i]);
    }
  }

  /** An insertion into a sorted list keeps it sorted, with the item behind its equals. */
  lemma InsertKeepsSorted<T(!new)>(s: seq<T>, x: T, compare: (T, T) -> int)
    requires Ordering(compare) && Sorted(s, compare)
    ensures Sorted(SortedInsert(s, x, compare), compare)
  {
    var k := PlaceOf(s, x, compare);
    PlaceKeepsSorted(s, x, compare, k);
  }

  class List<T(==)> {
    var first: ListElement?<T>
    var last: ListElement?<T>
    var numInList: nat
    /** The elements from `first` to `last`. */
    ghost var spine: seq<ListElement<T>>

    ghost predicate Valid()
      reads this, spine
    {
      && numInList == |spine| && Linked(spine) && NoRepeats(Contents())
      && (if spine == [] then first == null && last == null else first == spine[0] && last == spine[|spine| - 1])
    }

    ghost function Contents(): seq<T>
      reads this
    {
      Items(spine)
    }

    constructor ()
      ensures Valid() && Contents() == [] && spine == []
    {
      first, last, numInList, spine := null, null, 0, [];
    }

    predicate IsEmpty()
      requires Valid()
      reads this, spine
      ensures IsEmpty() <==> Contents() == []
    {
      numInList == 0
    }

    /** Puts an item that is not in the list at its end. */
    method Append(item: T)
      requires Valid() && item !in Contents()
      modifies this, spine
      ensures Valid() && Contents() == old(Contents()) + [item]
      ensures forall e :: e in spine ==> e in old(spine) || fresh(e)
    {
      NoRepeatsParts(Contents(), item);
      var element := new ListElement(item);
      if IsEmpty() {
        first := element;
      } else {
        last.next := element;
      }
      last := element;
      numInList := numInList + 1;
      spine := spine + [element];
      assert Contents() == old(Contents()) + [item];
    }

    /** Puts an item that is not in the list at its front. */
    method Prepend(item: T)
      requires Valid() && item !in Contents()
      modifies this
      ensures Valid() && Contents() == [item] + old(Contents())
      ensures forall e :: e in spine ==> e in old(spine) || fresh(e)
    {
      NoRepeatsAt(Contents(), 0, item);
      assert Contents()[..0] + [item] + Contents()[0..] == [item] + Contents();
      var element := new ListElement(item);
      if IsEmpty() {
        last := element;
      } else {
        element.next := first;
      }
      first := element;
      numInList := numInList + 1;
      spine := [element] + spine;
      assert Contents() == [item] + old(Contents());
    }

    /** Takes the first item off a list that has one. */
    method RemoveFront() returns (thing: T)
      requires Valid() && !IsEmpty()
      modifies this
      ensures Valid() && old(Contents()) == [thing] + Contents()
      ensures spine == old(spine)[1..]
    {
      var element := first;
      thing := first.item;
      NoRepeatsParts(Contents(), thing);
      if |spine| > 1 { NotTwice(spine, 0, |spine| - 1); }
      if first == last {
        first, last := null, null;
      } else {
        first := element.next;
      }
      numInList := numInList - 1;
      spine := spine[1..];
      assert Contents() == old(Contents())[1..];
    }

    method IsInList(item: T) returns (found: bool)
      requires Valid()
      ensures found <==> item in Contents()
    {
      var ptr := first;
      ghost var i := 0;
      while ptr != null
        invariant 0 <= i <= |spine| && ptr == (if i < |spine| then spine[i] else null)
        invariant item !in Contents()[..i]
        decreases |spine| - i
      {
        if item == ptr.item {
          assert Contents()[i] == item;
          return true;
        }
        ptr := ptr.next;
        i := i + 1;
      }
      return false;
    }

    /** Takes an item out of the list it is in; it is not in it any more then. */
    method Remove(item: T)
      requires Valid() && item in Contents()
      modifies this, spine
      ensures Valid() && Contents() == Without(old(Contents()), item) && item !in Contents()
      ensures forall e :: e in spine ==> e in old(spine)
    {
      if item == first.item {
        NoRepeatsParts(Contents(), item);
        var removed := RemoveFront();
      } else {
        var prev, ptr := first, first.next;
        ghost var i := 1;
        while item != ptr.item
          invariant 1 <= i < |spine| && prev == spine[i - 1] && ptr == spine[i]
          invariant item !in Contents()[..i]
          decreases |spine| - i
        {
          prev, ptr := ptr, ptr.next;
          i := i + 1;
        }
        WithoutAt(Contents(), i, item);
        NoRepeatsAt(Contents(), i, item);
        Unlink(prev, ptr, i);
      }
    }

    /** Takes the element `ptr` out from behind `prev`. */
    method Unlink(prev: ListElement<T>, ptr: ListElement<T>, ghost i: nat)
      requires Valid() && 1 <= i < |spine| && prev == spine[i - 1] && ptr == spine[i]
      modifies this, prev
      ensures Valid() && spine == old(spine)[..i] + old(spine)[i + 1..]
      ensures Contents() == old(Contents())[..i] + old(Contents())[i + 1..]
    {
      NoRepeatsAt(Contents(), i, ptr.item);
      forall j | 0 <= j < |spine| && j != i - 1 ensures spine[j] != prev {
        NotTwice(spine, if j < i - 1 then j else i - 1, if j < i - 1 then i - 1 else j);
      }
      EndsAtLast(spine, i);
      prev.next := ptr.next;
      if prev.next == null {
        last := prev;
      }
      numInList := numInList - 1;
      spine := spine[..i] + spine[i + 1..];
      assert Contents() == old(Contents())[..i] + old(Contents())[i + 1..];
    }

    /** `SortedList::Insert`: puts an item that is not in the list where it belongs. */
    method Insert(item: T, compare: (T, T) -> int)
      requires Valid() && item !in Contents()
      modifies this, spine
      ensures Valid() && Contents() == SortedInsert(old(Contents()), item, compare)
      ensures forall e :: e in spine ==> e in old(spine) || fresh(e)
    {
      ghost var s := Contents();
      NoRepeatsAt(s, 0, item);
      assert s[..0] + [item] + s[0..] == [item] + s;
      var element := new ListElement(item);
      if IsEmpty() {
        first, last := element, element;
        spine := [element];
      } else if compare(item, first.item) < 0 {
        element.next := first;
        first := element;
        spine := [element] + spine;
      } else {
        var ptr := first;
        ghost var i := 0;
        while ptr.next != null && compare(item, ptr.next.item) >= 0
          invariant 0 <= i < |spine| && ptr == spine[i]
          invariant forall j :: 0 <= j <= i ==> compare(item, s[j]) >= 0
          decreases |spine| - i
        {
          ptr := ptr.next;
          i := i + 1;
        }
        SortedInsertAt(s, i + 1, item, compare);
        LinkAfter(ptr, element, i);
        return;
      }
      numInList := numInList + 1;
      assert Contents() == [item] + s;
    }

    /** Puts `element` in behind `ptr`. */
    method LinkAfter(ptr: ListElement<T>, element: ListElement<T>, ghost i: nat)
      requires Valid() && i < |spine| && ptr == spine[i] && element !in spine && element.next == null
      requires element.item !in Contents()
      modifies this, ptr, element
      ensures Valid() && spine == old(spine)[..i + 1] + [element] + old(spine)[i + 1..]
      ensures Contents() == old(Contents())[..i + 1] + [element.item] + old(Contents())[i + 1..]
    {
      NoRepeatsAt(Contents(), i + 1, element.item);
      forall j | 0 <= j < |spine| && j != i ensures spine[j] != ptr {
        NotTwice(spine, if j < i then j else i, if j < i then i else j);
      }
      if ptr.next != null {
        element.next := ptr.next;
        ptr.next := element;
      } else {
        EndsAtLast(spine, i);
        last.next := element;
        last := element;
      }
      numInList := numInList + 1;
      spine := spine[..i + 1] + [element] + spine[i + 1..];
      assert Contents() == old(Contents())[..i + 1] + [element.item] + old(Contents())[i + 1..];
    }
  }
}
