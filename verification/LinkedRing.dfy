/** The intrusive circular list (src/list.c:76-122): items carry their own links. */
module LinkedRing {
  import opened Machine

  /** Which of the two items of a thread structure this is: list_item or wait_list_item. */
  datatype Role = RunLink | WaitLink

  class Item {
    const role: Role
    const owner: nat        // the id of the thread it is part of
    var prev: Item?
    var next: Item?
    var list: List?

    constructor (role: Role, owner: nat)
      ensures this.role == role && this.owner == owner && prev == null && next == null && list == null
    {
      this.role, this.owner := role, owner;
      prev, next, list := null, null, null;
    }
  }

  /** Item `i` is linked to its neighbours, in both directions. */
  ghost predicate Linked(items: seq<Item>, i: nat)
    reads set x | x in items
  {
    i < |items| ==> items[i].prev == items[Prev(|items|, i)] && items[i].next == items[Next(|items|, i)]
  }

  predicate Differ<T(==)>(items: seq<T>, i: nat, j: nat) {
    i < j < |items| ==> items[i] != items[j]
  }

  class List {
    var first: Item?
    var count: nat
    var mtx: bool

    constructor ()
      ensures first == null && count == 0 && !mtx
      ensures Holds([])
    {
      first, count, mtx := null, 0, false;
    }

    ghost predicate HoldsIs(items: seq<Item>)
      reads this, set x | x in items
    {
      && count == |items| && first == (if items == [] then null else items[0])
      && (forall i: nat, j: nat :: Differ(items, i, j)) && (forall i: nat :: Linked(items, i))
      && (forall x :: x in items ==> x.list == this)
    }

    /** The list is the ring of exactly these items, from `first` on. */
    ghost predicate Holds(items: seq<Item>)
      reads this, set x | x in items
    {
      (if HoldsIs(items) then Clean else Corrupt).Clean?
    }

    /** list_add: the item becomes the last one; an item that is in a list already stays where it is. */
    method Add(item: Item, ghost items: seq<Item>)
      requires Holds(items) && !mtx
      modifies this, item, set x | x in items
      ensures !mtx && item.list != null && (item in items ==> old(item.list) == this)
      ensures old(item.list) == null ==> Holds(items + [item]) && item.list == this
      ensures old(item.list) != null ==>
        Holds(items) && unchanged(this) && unchanged(item) && unchanged(set x | x in items)
    {
      assert HoldsIs(items);
      if item.list == null {
        mtx := true;
        LinkLast(item, items);
        count := count + 1;
        mtx := false;
        assert forall i: nat, j: nat :: Differ(items + [item], i, j) by {
          forall i: nat, j: nat ensures Differ(items + [item], i, j) {
            assert Differ(items, i, j);
          }
        }
        assert HoldsIs(items + [item]);
      }
    }

    /** The links that list_add writes. */
    method LinkLast(item: Item, ghost items: seq<Item>)
      requires HoldsIs(items) && item !in items
      modifies this`first, item, set x | x in items
      ensures item.list == this && forall x :: x in items ==> x.list == old(x.list)
      ensures first == (items + [item])[0]
      ensures forall i: nat :: Linked(items + [item], i)
    {
      ghost var more, n := items + [item], |items|;
      if first != null {
        var f: Item := first;
        assert Linked(items, 0) && Linked(items, n - 1);
        item.list := this;
        item.next := f;
        item.prev := f.prev;
        var last: Item := item.prev;
        last.next := item;
        f.prev := item;
        forall i: nat ensures Linked(more, i) {
          assert old(Linked(items, i));
          assert Differ(items, i, n - 1) && Differ(items, 0, i);
        }
      } else {
        first := item;
        item.list := this;
        item.next := item;
        item.prev := item;
      }
    }

    /** list_remove: exactly item `i` leaves the ring. Its own links and its list field stay as they were. */
    method Remove(item: Item, ghost items: seq<Item>, ghost i: nat)
      requires Holds(items) && !mtx && i < |items| && item == items[i]
      modifies this, set x | x in items
      ensures !mtx && Holds(Without(items, i))
      ensures |items| > 1 ==> unchanged(item)
      ensures item.list == this && item.next == old(item.next)
    {
      mtx := true;
      Unlink(item, items, i);
      count := count - 1;
      mtx := false;
      WithoutDistinct(items, i);
      assert forall x :: x in Without(items, i) ==> x in items;
    }

    /** The links that list_remove writes. */
    method Unlink(item: Item, ghost items: seq<Item>, ghost i: nat)
      requires HoldsIs(items) && i < |items| && item == items[i]
      modifies this`first, set x | x in items
      ensures first == (if |items| == 1 then null else Without(items, i)[0])
      ensures forall k: nat :: Linked(Without(items, i), k)
      ensures forall x :: x in items ==> x.list == old(x.list)
      ensures |items| > 1 ==> unchanged(item)
      ensures item.next == old(item.next)
    {
      ghost var rest, n := Without(items, i), |items|;
      assert Linked(items, i);
      assert Differ(items, 0, i) && Differ(items, i, Next(n, i)) && Differ(items, Next(n, i), i);
      assert Differ(items, i, Prev(n, i)) && Differ(items, Prev(n, i), i);
      if first == item {
        first := item.next;
        if first == item {
          first := null;
        }
      }
      var p: Item, q: Item := item.prev, item.next;
      p.next := q;
      q.prev := p;
      forall k: nat ensures Linked(rest, k) {
        UnlinkedAt(items, i, k);
        if k < n - 1 {
          assert old(Linked(items, Up(i, k)));
          assert Differ(items, Up(i, k), Prev(n, i)) && Differ(items, Prev(n, i), Up(i, k));
          assert Differ(items, Up(i, k), Next(n, i)) && Differ(items, Next(n, i), Up(i, k));
        }
      }
    }
  }

  lemma UnlinkedAt<T>(items: seq<T>, i: nat, k: nat)
    requires i < |items|
    ensures var n, rest := |items|, Without(items, i);
      |rest| == n - 1 && (k < n - 1 ==>
        && rest[k] == items[Up(i, k)]
        && rest[Next(n - 1, k)] == items[if Next(n, Up(i, k)) == i then Next(n, i) else Next(n, Up(i, k))]
        && rest[Prev(n - 1, k)] == items[if Prev(n, Up(i, k)) == i then Prev(n, i) else Prev(n, Up(i, k))]
        && (Next(n, Up(i, k)) == i <==> Up(i, k) == Prev(n, i))
        && (Prev(n, Up(i, k)) == i <==> Up(i, k) == Next(n, i)))
  {
  }

  lemma WithoutDistinct<T>(items: seq<T>, i: nat)
    requires i < |items| && forall a: nat, b: nat :: Differ(items, a, b)
    ensures forall a: nat, b: nat :: Differ(Without(items, i), a, b)
  {
    forall a: nat, b: nat ensures Differ(Without(items, i), a, b) {
      assert Differ(items, Up(i, a), Up(i, b));
      UnlinkedAt(items, i, a);
      UnlinkedAt(items, i, b);
    }
  }
}
