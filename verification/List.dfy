/**
 * threads/list.h: a singly linked list with a head and a tail pointer, and the
 * insertion by key that keeps it sorted.
 */
module Lists {

  datatype Elem<+T> = Elem(key: int, item: T)

  // ----- insertion by key, on sequences -----

  /** Put x before the first element with a larger key. */
  function InsertByKey<T>(s: seq<Elem<T>>, x: Elem<T>): (r: seq<Elem<T>>)
    ensures |r| == |s| + 1
  {
    if |s| == 0 || x.key < s[0].key then [x] + s else [s[0]] + InsertByKey(s[1..], x)
  }

  ghost predicate Sorted<T>(s: seq<Elem<T>>)
  {
    forall i, j | 0 <= i < j < |s| :: s[i].key <= s[j].key
  }

  /** Position i is where x goes: after the elements that are not larger, before the first larger one. */
  lemma {:induction false} InsertSplits<T>(s: seq<Elem<T>>, x: Elem<T>, i: nat)
    requires i <= |s|
    requires forall j | 0 <= j < i :: s[j].key <= x.key
    requires i < |s| ==> x.key < s[i].key
    ensures InsertByKey(s, x) == s[..i] + [x] + s[i..]
  {
    if i > 0 {
      InsertSplits(s[1..], x, i - 1);
      assert s[..i] == [s[0]] + s[1..][..i - 1];
      assert s[i..] == s[1..][i - 1..];
    }
  }

  lemma {:induction false} InsertKeepsItems<T>(s: seq<Elem<T>>, x: Elem<T>)
    ensures multiset(InsertByKey(s, x)) == multiset(s) + multiset{x}
  {
    if |s| > 0 && s[0].key <= x.key {
      InsertKeepsItems(s[1..], x);
      assert s == [s[0]] + s[1..];
    }
  }

  /** Every element of the result is x or an old one. */
  lemma InsertMembers<T>(s: seq<Elem<T>>, x: Elem<T>, y: Elem<T>)
    ensures y in InsertByKey(s, x) <==> y == x || y in s
  {
    InsertKeepsItems(s, x);
    assert y in InsertByKey(s, x) <==> y in multiset(InsertByKey(s, x));
    assert y in s <==> y in multiset(s);
  }

  lemma {:induction false} InsertKeepsSorted<T>(s: seq<Elem<T>>, x: Elem<T>)
    requires Sorted(s)
    ensures Sorted(InsertByKey(s, x))
  {
    if |s| > 0 && s[0].key <= x.key {
      InsertKeepsSorted(s[1..], x);
      var r := InsertByKey(s[1..], x);
      forall k | 0 <= k < |r|
        ensures s[0].key <= r[k].key
      {
        InsertMembers(s[1..], x, r[k]);
      }
    }
  }

  // ----- the linked list -----

  class ListElement<T> {
    var next: ListElement?<T>
    var key: int
    var item: T

    constructor (anItem: T, sortKey: int)
      ensures item == anItem && key == sortKey && next == null
    {
      item := anItem;
      key := sortKey;
      next := null;
    }
  }

  class List<T> {
    var first: ListElement?<T>
    var last: ListElement?<T>
    ghost var spine: seq<ListElement<T>>

    ghost predicate Valid()
      reads this, spine
    {
      && (forall i, j | 0 <= i < j < |spine| :: spine[i] != spine[j])
      && (forall i | 0 <= i < |spine| - 1 :: spine[i].next == spine[i + 1])
      && (if spine == [] then first == null && last == null
          else first == spine[0] && last == spine[|spine| - 1] && spine[|spine| - 1].next == null)
    }

    ghost function Contents(): (s: seq<Elem<T>>)
      reads this, spine
      ensures |s| == |spine|
    {
      seq(|spine|, i requires 0 <= i < |spine| reads this, spine => Elem(spine[i].key, spine[i].item))
    }

    constructor ()
      ensures Valid() && spine == [] && Contents() == []
    {
      first, last := null, null;
      spine := [];
    }

    predicate IsEmpty()
      requires Valid()
      reads this, spine
      ensures IsEmpty() <==> Contents() == []
    {
      first == null
    }

    method Append(item: T)
      requires Valid()
      modifies this, spine
      ensures Valid() && fresh(set n | n in spine && n !in old(spine))
      ensures Contents() == old(Contents()) + [Elem(0, item)]
    {
      var element := new ListElement(item, 0);
      if IsEmpty() {
        first := element;
        last := element;
      } else {
        last.next := element;
        last := element;
      }
      spine := spine + [element];
    }

    method Prepend(item: T)
      requires Valid()
      modifies this
      ensures Valid() && fresh(set n | n in spine && n !in old(spine))
      ensures Contents() == [Elem(0, item)] + old(Contents())
    {
      var element := new ListElement(item, 0);
      if IsEmpty() {
        first := element;
        last := element;
      } else {
        element.next := first;
        first := element;
      }
      spine := [element] + spine;
    }

    method SortedInsert(item: T, sortKey: int)
      requires Valid()
      modifies this, spine
      ensures Valid() && fresh(set n | n in spine && n !in old(spine))
      ensures Contents() == InsertByKey(old(Contents()), Elem(sortKey, item))
    {
      var element := new ListElement(item, sortKey);
      if IsEmpty() {
        first := element;
        last := element;
        spine := [element];
      } else if sortKey < first.key {
        element.next := first;
        first := element;
        spine := [element] + spine;
      } else {
        InsertBehindFirst(element);
      }
    }

    /** The last branch of SortedInsert: look for the first element bigger than the new one. */
    method InsertBehindFirst(element: ListElement<T>)
      requires Valid() && spine != [] && element !in spine && element.next == null && spine[0].key <= element.key
      modifies this, spine, element
      ensures Valid() && forall n | n in spine :: n in old(spine) || n == element
      ensures Contents() == InsertByKey(old(Contents()), old(Elem(element.key, element.item)))
    {
      hide InsertByKey;
      ghost var s, x := Contents(), Elem(element.key, element.item);
      var ptr := first;
      ghost var i := 0;
      while ptr.next != null
        invariant 0 <= i < |spine| && ptr == spine[i]
        invariant forall j | 0 <= j <= i :: s[j].key <= element.key
        decreases |spine| - i
      {
        if element.key < ptr.next.key {
          InsertSplits(s, x, i + 1);
          LinkAfter(ptr, element, i);
          return;
        }
        ptr := ptr.next;
        i := i + 1;
      }
      InsertSplits(s, x, i + 1);
      assert s[..i + 1] == s && s[i + 1..] == [];
      LinkLast(element);
    }

    /** The assignments that put `element` behind the last one. */
    method LinkLast(element: ListElement<T>)
      requires Valid() && spine != [] && element !in spine && element.next == null
      modifies this, last`next
      ensures Valid() && spine == old(spine) + [element]
      ensures Contents() == old(Contents()) + [Elem(element.key, element.item)]
    {
      last.next := element;
      last := element;
      spine := spine + [element];
    }

    /** The two assignments that splice `element` in behind position i. */
    method LinkAfter(ptr: ListElement<T>, element: ListElement<T>, ghost i: nat)
      requires Valid() && i + 1 < |spine| && ptr == spine[i] && element !in spine
      modifies this, ptr`next, element`next
      ensures Valid() && spine == old(spine[..i + 1] + [element] + spine[i + 1..])
      ensures Contents() == old(Contents()[..i + 1] + [Elem(element.key, element.item)] + Contents()[i + 1..])
    {
      element.next := ptr.next;
      ptr.next := element;
      spine := spine[..i + 1] + [element] + spine[i + 1..];
    }

    /** SortedRemove; `Item()` of the source is the `none` of the empty list. */
    method SortedRemove(none: T) returns (thing: T, key: int)
      requires Valid()
      modifies this
      ensures Valid() && forall n | n in spine :: n in old(spine)
      ensures if old(Contents()) == [] then thing == none && Contents() == []
              else Elem(key, thing) == old(Contents())[0] && Contents() == old(Contents())[1..]
    {
      if IsEmpty() {
        return none, 0;
      }
      var element := first;
      thing, key := first.item, first.key;
      if first == last {
        first, last := null, null;
      } else {
        first := element.next;
      }
      spine := spine[1..];
    }

    /** Remove: as SortedRemove, without the key. */
    method Remove(none: T) returns (thing: T)
      requires Valid()
      modifies this
      ensures Valid() && forall n | n in spine :: n in old(spine)
      ensures if old(Contents()) == [] then thing == none && Contents() == []
              else thing == old(Contents())[0].item && Contents() == old(Contents())[1..]
    {
      var key;
      thing, key := SortedRemove(none);
    }
  }
}
