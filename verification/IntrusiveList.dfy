// The kernel's list: items that carry their own links, in a ring through an end marker
// (Middlewares/FreeRTOS-Kernel/list.c:49-247).

module IntrusiveList {
  import opened Words
  import opened OrderedEntries

  const MAX_DELAY: nat := WORD_LIMIT - 1   // portMAX_DELAY, the key of the end marker

  class ListItem {
    var value: nat
    var next: ListItem?
    var prev: ListItem?
    var container: List?

    // vListInitialiseItem, and a value
    constructor (v: nat)
      ensures value == v && container == null
    {
      value, next, prev, container := v, null, null, null;
    }
  }

  // ----- The ring as a sequence: the end marker first, then the items in order -----

  function Succ(i: nat, n: nat): (j: nat)
    ensures i < n ==> j < n
    ensures i < n && n > 1 ==> j != i
  {
    if i + 1 == n then 0 else i + 1
  }

  function Pred(i: nat, n: nat): (j: nat)
    requires n > 0
    ensures i < n ==> j < n
    ensures i < n && n > 1 ==> j != i
  {
    if i == 0 then n - 1 else i - 1
  }

  ghost predicate Distinct(ring: seq<ListItem>) {
    forall i, j :: 0 <= i < j < |ring| ==> ring[i] != ring[j]
  }

  // The i-th points to its neighbours, round the ring both ways.
  ghost predicate LinkedAt(ring: seq<ListItem>, i: nat)
    requires i < |ring|
    reads ring
  {
    ring[i].next == ring[Succ(i, |ring|)] && ring[i].prev == ring[Pred(i, |ring|)]
  }

  ghost predicate Linked(ring: seq<ListItem>)
    reads ring
  {
    forall i :: 0 <= i < |ring| ==> LinkedAt(ring, i)
  }

  // x as the k-th of the ring
  function Inserted<T>(ring: seq<T>, k: nat, x: T): seq<T>
    requires k <= |ring|
  {
    ring[..k] + [x] + ring[k..]
  }

  function Removed<T>(ring: seq<T>, k: nat): seq<T>
    requires k < |ring|
  {
    ring[..k] + ring[k + 1..]
  }

  // An item taken out right after it was put in leaves the ring as it was.
  lemma InsertThenRemoved<T>(ring: seq<T>, k: nat, x: T)
    requires k <= |ring|
    ensures Removed(Inserted(ring, k, x), k) == ring
  {
  }

  // The links at i once the four assignments of an insertion as the k-th are made.
  ghost predicate SplicedAt(ring: seq<ListItem>, k: nat, x: ListItem, i: nat)
    requires 0 < k <= |ring| && i < |ring|
    reads ring
  {
    var n := |ring|;
    && ring[i].next == (if i == k - 1 then x else ring[Succ(i, n)])
    && ring[i].prev == (if i == (if k == n then 0 else k) then x else ring[Pred(i, n)])
  }

  ghost predicate Spliced(ring: seq<ListItem>, k: nat, x: ListItem)
    requires 0 < k <= |ring|
    reads ring, x
  {
    && (forall i :: 0 <= i < |ring| ==> SplicedAt(ring, k, x, i))
    && x.next == ring[if k == |ring| then 0 else k] && x.prev == ring[k - 1]
  }

  lemma InsertedAt<T>(ring: seq<T>, k: nat, x: T, i: nat)
    requires k <= |ring| && i <= |ring|
    ensures Inserted(ring, k, x)[i] == if i < k then ring[i] else if i == k then x else ring[i - 1]
  {
  }

  lemma SplicedIsLinked(ring: seq<ListItem>, k: nat, x: ListItem)
    requires 0 < k <= |ring| && Spliced(ring, k, x)
    ensures Linked(Inserted(ring, k, x))
  {
    hide Inserted;
    var n := |ring|;
    var r := Inserted(ring, k, x);
    assert |r| == n + 1 by { InsertedLength(ring, k, x); }
    forall i | 0 <= i <= n
      ensures LinkedAt(r, i)
    {
      InsertedAt(ring, k, x, i);
      InsertedAt(ring, k, x, Succ(i, n + 1));
      InsertedAt(ring, k, x, Pred(i, n + 1));
      if i < k {
        assert SplicedAt(ring, k, x, i);
      } else if i > k {
        assert SplicedAt(ring, k, x, i - 1);
      }
    }
  }

  lemma InsertedLength<T>(ring: seq<T>, k: nat, x: T)
    requires k <= |ring|
    ensures |Inserted(ring, k, x)| == |ring| + 1
    ensures forall y :: y in Inserted(ring, k, x) <==> y in ring || y == x
  {
    assert ring == ring[..k] + ring[k..];
  }

  lemma InsertedDistinct(ring: seq<ListItem>, k: nat, x: ListItem)
    requires k <= |ring| && Distinct(ring) && x !in ring
    ensures Distinct(Inserted(ring, k, x))
  {
  }

  // The keys and items of the list, in order.
  ghost function Entries(items: seq<ListItem>): (s: seq<Entry<ListItem>>)
    reads items
    ensures |s| == |items|
    ensures forall i :: 0 <= i < |s| ==> s[i] == Entry(items[i].value, items[i])
  {
    seq(|items|, i requires 0 <= i < |items| reads items => Entry(items[i].value, items[i]))
  }

  class List {
    const end: ListItem
    var index: ListItem
    var count: nat
    ghost var ring: seq<ListItem>

    ghost predicate Valid()
      reads this, ring
    {
      && 0 < |ring| && ring[0] == end && end.value == MAX_DELAY
      && count == |ring| - 1
      && index in ring
      && Distinct(ring)
      && Linked(ring)
      && Owns(ring)
    }

    // vListInitialise
    constructor ()
      ensures Valid() && count == 0 && index == end && fresh(end) && ring == [end]
    {
      var e := new ListItem(MAX_DELAY);
      e.next, e.prev := e, e;
      end, index, count := e, e, 0;
      ring := [e];
    }

    // vListInsertEnd: behind everything that a round trip from the index still has to visit.
    method InsertEnd(x: ListItem)
      requires Valid() && x !in ring && x.container == null && x.value <= MAX_DELAY
      modifies this`count, this`ring, ring, x
      ensures Valid() && index == old(index) && x.value == old(x.value)
      ensures exists k :: 0 < k <= |old(ring)| && old(ring)[if k == |old(ring)| then 0 else k] == index
                && ring == Inserted(old(ring), k, x)
      ensures forall y :: y in old(ring) ==> y.value == old(y.value)
    {
      hide Linked;
      ghost var p :| 0 <= p < |ring| && ring[p] == index;
      ghost var k := if p == 0 then |ring| else p;
      Splice(index, x, k);
    }

    // vListInsert. The key of the end marker would let the search run on for ever, so an item
    // of that key goes straight to the end.
    method Insert(x: ListItem)
      requires Valid() && x !in ring && x.container == null && x.value <= MAX_DELAY
      modifies this`count, this`ring, ring, x
      ensures Valid() && index == old(index) && x.value == old(x.value)
      ensures var k := 1 + Position(old(Entries(ring[1..])), x.value);
              && k <= |old(ring)| && ring == Inserted(old(ring), k, x)
      ensures Entries(ring[1..]) == InsertOrdered(old(Entries(ring[1..])), Entry(x.value, x))
    {
      hide Distinct, Inserted, InsertOrdered, Linked, Owns, Position;
      ghost var was, items := ring, Entries(ring[1..]);
      var at;
      ghost var k;
      at, k := Search(x.value);
      Splice(at, x, k);
      EntriesInserted(was, k, x, items);
    }

    // The item before which an item of the given key belongs.
    method Search(value: nat) returns (at: ListItem, ghost k: nat)
      requires Valid() && value <= MAX_DELAY
      ensures k == 1 + Position(Entries(ring[1..]), value) <= |ring|
      ensures at == ring[if k == |ring| then 0 else k]
    {
      hide Distinct;
      ghost var j;
      var it;
      assert LinkedAt(ring, 0);
      if value == MAX_DELAY {
        it, j := end.prev, |ring| - 1;
      } else {
        it, j := end, 0;
        while it.next.value <= value
          invariant 0 <= j < |ring| && it == ring[j] && LinkedAt(ring, j)
          invariant forall i :: 1 <= i <= j ==> ring[i].value <= value
          decreases |ring| - j
        {
          assert it.next == ring[Succ(j, |ring|)];
          it, j := it.next, j + 1;
          assert LinkedAt(ring, j);
        }
      }
      PositionIs(Entries(ring[1..]), value, j);
      assert LinkedAt(ring, j);
      at, k := it.next, j + 1;
    }

    // uxListRemove
    method Remove(x: ListItem) returns (left: nat)
      requires Valid() && x in ring && x != end
      modifies this`count, this`ring, this`index, ring
      ensures Valid() && left == count == old(count) - 1
      ensures x.container == null && x !in ring && x.value == old(x.value)
      ensures exists k :: 0 < k < |old(ring)| && old(ring)[k] == x && ring == Removed(old(ring), k)
                && index == if old(index) == x then old(ring)[k - 1] else old(index)
      ensures forall y :: y in old(ring) ==> y.value == old(y.value)
    {
      hide Distinct, Removed, Linked;
      ghost var was := ring;
      ghost var k :| 0 <= k < |was| && was[k] == x;
      Unlink(x, was, k);
      if index == x {
        index := x.prev;
      }
      x.container := null;
      count := count - 1;
      RemovedMembers(was, k);
      ApartFrom(was, k);
      ring := Removed(was, k);
      StillContained(was, k);
      left := count;
    }

    method Unlink(x: ListItem, ghost was: seq<ListItem>, ghost k: nat)
      requires Distinct(was) && Linked(was) && 0 < k < |was| && was[k] == x
      modifies was`next, was`prev
      ensures Linked(Removed(was, k)) && x.prev == was[k - 1]
    {
      hide Distinct, Linked, Removed, Succ;
      ghost var nexts, prevs := Nexts(was), Prevs(was);
      LinksWritten(was);
      assert WasLinked(was, nexts, prevs, k);
      ApartFrom(was, k);
      assert x.next == was[Succ(k, |was|)] && x.prev == was[k - 1];
      x.next.prev := x.prev;
      x.prev.next := x.next;
      UnsplicedAfter(was, k, nexts, prevs);
      UnsplicedIsLinked(was, k);
    }

    // Taking out what was just put in leaves the list, links and index included, as it was.
    method InsertThenRemove(x: ListItem)
      requires Valid() && x !in ring && x.container == null && x.value <= MAX_DELAY
      modifies this`count, this`ring, this`index, ring, x
      ensures Valid() && ring == old(ring) && index == old(index) && count == old(count)
      ensures x !in ring && x.container == null
    {
      hide Distinct, Linked, Owns, Inserted, Removed, Entries, Position;
      ghost var was, k := ring, 1 + Position(Entries(ring[1..]), x.value);
      Insert(x);
      InsertedAt(was, k, x, k);
      InsertedLength(was, k, x);
      ghost var full := ring;
      assert forall y :: y in full ==> y in was || y == x;
      var _ := Remove(x);
      ghost var j :| 0 < j < |full| && full[j] == x && ring == Removed(full, j);
      if j != k {
        InsertedAt(was, k, x, j);
      }
      InsertThenRemoved(was, k, x);
    }

    // The four assignments, in front of `at`.
    method Splice(at: ListItem, x: ListItem, ghost k: nat)
      requires Valid() && x !in ring && x.container == null && x.value <= MAX_DELAY
      requires 0 < k <= |ring| && ring[if k == |ring| then 0 else k] == at
      modifies this`count, this`ring, ring, x
      ensures Valid() && index == old(index) && x.value == old(x.value)
      ensures ring == Inserted(old(ring), k, x)
      ensures forall y :: y in old(ring) ==> y.value == old(y.value)
    {
      hide Distinct, Inserted, Linked, Spliced;
      ghost var was := ring;
      x.container := this;
      count := count + 1;
      Link(at, x, was, k);
      SplicedIsLinked(was, k, x);
      InsertedLength(was, k, x);
      InsertedDistinct(was, k, x);
      ring := Inserted(was, k, x);
      Contained(was, k, x);
    }

    method Link(at: ListItem, x: ListItem, ghost was: seq<ListItem>, ghost k: nat)
      requires Distinct(was) && Linked(was) && x !in was
      requires 0 < k <= |was| && was[if k == |was| then 0 else k] == at
      modifies was`next, was`prev, x`next, x`prev
      ensures Spliced(was, k, x)
    {
      hide Distinct, Linked;
      ghost var nexts, prevs := Nexts(was), Prevs(was);
      LinksWritten(was);
      NeighboursOf(was, k);
      assert at.prev == was[k - 1];
      Rewire(at, x);
      SplicedAfter(was, k, x, nexts, prevs);
    }

    method Rewire(at: ListItem, x: ListItem)
      requires at.prev != null && x != at && x != at.prev
      modifies at`prev, at.prev`next, x`next, x`prev
      ensures x.next == at && x.prev == old(at.prev)
      ensures old(at.prev).next == x && at.prev == x
      ensures old(at.prev) != at ==> at.next == old(at.next) && old(at.prev).prev == old(at.prev.prev)
    {
      x.next := at;
      x.prev := at.prev;
      at.prev.next := x;
      at.prev := x;
    }

    // Every item of the list is marked as its own.
    ghost predicate Owns(items: seq<ListItem>)
      reads this, items
    {
      forall i :: 1 <= i < |items| ==> items[i].container == this && items[i].value <= MAX_DELAY
    }

    lemma StillContained(was: seq<ListItem>, k: nat)
      requires 0 < k < |was|
      requires forall i :: 1 <= i < |was| && i != k ==> was[i].container == this && was[i].value <= MAX_DELAY
      ensures Owns(Removed(was, k)) && Removed(was, k)[0] == was[0] && |Removed(was, k)| == |was| - 1
    {
    }

    lemma Contained(was: seq<ListItem>, k: nat, x: ListItem)
      requires 0 < k <= |was| && Owns(was) && x.container == this && x.value <= MAX_DELAY
      ensures Owns(Inserted(was, k, x)) && Inserted(was, k, x)[0] == was[0]
    {
    }
  }

  lemma NeighboursOf(ring: seq<ListItem>, k: nat)
    requires 0 < k <= |ring| && Linked(ring)
    ensures var b := if k == |ring| then 0 else k;
            ring[b].prev == ring[k - 1] && ring[k - 1].next == ring[b]
  {
    assert LinkedAt(ring, k - 1) && LinkedAt(ring, if k == |ring| then 0 else k);
  }

  // The links of a ring, written down.
  ghost function Nexts(ring: seq<ListItem>): (s: seq<ListItem?>)
    reads ring
    ensures |s| == |ring| && forall i :: 0 <= i < |ring| ==> s[i] == ring[i].next
  {
    seq(|ring|, i requires 0 <= i < |ring| reads ring => ring[i].next)
  }

  ghost function Prevs(ring: seq<ListItem>): (s: seq<ListItem?>)
    reads ring
    ensures |s| == |ring| && forall i :: 0 <= i < |ring| ==> s[i] == ring[i].prev
  {
    seq(|ring|, i requires 0 <= i < |ring| reads ring => ring[i].prev)
  }

  predicate WasLinked(ring: seq<ListItem>, nexts: seq<ListItem?>, prevs: seq<ListItem?>, i: nat)
    requires |ring| == |nexts| == |prevs| && i < |ring|
  {
    nexts[i] == ring[Succ(i, |ring|)] && prevs[i] == ring[Pred(i, |ring|)]
  }

  lemma LinksWritten(ring: seq<ListItem>)
    requires Linked(ring)
    ensures forall i :: 0 <= i < |ring| ==> WasLinked(ring, Nexts(ring), Prevs(ring), i)
  {
    forall i | 0 <= i < |ring|
      ensures WasLinked(ring, Nexts(ring), Prevs(ring), i)
    {
      assert LinkedAt(ring, i);
    }
  }

  // In what was a linked ring, redirecting the one pair of links where x goes makes the splice.
  lemma SplicedAfter(ring: seq<ListItem>, k: nat, x: ListItem, nexts: seq<ListItem?>, prevs: seq<ListItem?>)
    requires 0 < k <= |ring| == |nexts| == |prevs| && Distinct(ring)
    requires forall i :: 0 <= i < |ring| ==> WasLinked(ring, nexts, prevs, i)
    requires var b := if k == |ring| then 0 else k;
             && ring[k - 1].next == x && ring[b].prev == x && x.next == ring[b] && x.prev == ring[k - 1]
             && (forall i :: 0 <= i < |ring| && ring[i] != ring[k - 1] ==> ring[i].next == nexts[i])
             && (forall i :: 0 <= i < |ring| && ring[i] != ring[b] ==> ring[i].prev == prevs[i])
    ensures Spliced(ring, k, x)
  {
    hide Distinct;
    var b := if k == |ring| then 0 else k;
    forall i | 0 <= i < |ring|
      ensures SplicedAt(ring, k, x, i)
    {
      assert WasLinked(ring, nexts, prevs, i);
      if i != k - 1 { Apart(ring, i, k - 1); }
      if i != b { Apart(ring, i, b); }
    }
  }

  lemma {:induction false} PositionIs<T>(s: seq<Entry<T>>, key: nat, p: nat)
    requires p <= |s| && (forall i :: 0 <= i < p ==> s[i].key <= key) && (p < |s| ==> s[p].key > key)
    ensures Position(s, key) == p
  {
    if p > 0 {
      PositionIs(s[1..], key, p - 1);
    }
  }

  lemma EntriesInserted(was: seq<ListItem>, k: nat, x: ListItem, items: seq<Entry<ListItem>>)
    requires 0 < k <= |was| && |items| == |was| - 1
    requires forall i :: 1 <= i < |was| ==> items[i - 1] == Entry(was[i].value, was[i])
    requires k == 1 + Position(items, x.value)
    ensures Entries(Inserted(was, k, x)[1..]) == InsertOrdered(items, Entry(x.value, x))
  {
    hide Position;
  }

  // The links at i once those around the k-th lead past it.
  ghost predicate UnsplicedAt(ring: seq<ListItem>, k: nat, i: nat)
    requires k < |ring| && i < |ring|
    reads ring
  {
    var n := |ring|;
    && ring[i].next == (if i == Pred(k, n) then ring[Succ(k, n)] else ring[Succ(i, n)])
    && ring[i].prev == (if i == Succ(k, n) then ring[Pred(k, n)] else ring[Pred(i, n)])
  }

  lemma UnsplicedAfter(ring: seq<ListItem>, k: nat, nexts: seq<ListItem?>, prevs: seq<ListItem?>)
    requires 0 < k < |ring| == |nexts| == |prevs| && Distinct(ring)
    requires forall i :: 0 <= i < |ring| ==> WasLinked(ring, nexts, prevs, i)
    requires var n := |ring|;
             && ring[Pred(k, n)].next == ring[Succ(k, n)] && ring[Succ(k, n)].prev == ring[Pred(k, n)]
             && (forall i :: 0 <= i < n && ring[i] != ring[Pred(k, n)] ==> ring[i].next == nexts[i])
             && (forall i :: 0 <= i < n && ring[i] != ring[Succ(k, n)] ==> ring[i].prev == prevs[i])
    ensures forall i :: 0 <= i < |ring| ==> UnsplicedAt(ring, k, i)
  {
    hide Distinct;
    var n := |ring|;
    forall i | 0 <= i < n
      ensures UnsplicedAt(ring, k, i)
    {
      assert WasLinked(ring, nexts, prevs, i);
      if i != Pred(k, n) { Apart(ring, i, Pred(k, n)); }
      if i != Succ(k, n) { Apart(ring, i, Succ(k, n)); }
    }
  }

  lemma RemovedAt<T>(ring: seq<T>, k: nat, i: nat)
    requires k < |ring| && i + 1 < |ring|
    ensures |Removed(ring, k)| == |ring| - 1
    ensures Removed(ring, k)[i] == if i < k then ring[i] else ring[i + 1]
  {
  }

  lemma UnsplicedIsLinked(ring: seq<ListItem>, k: nat)
    requires 0 < k < |ring| && forall i :: 0 <= i < |ring| ==> UnsplicedAt(ring, k, i)
    ensures Linked(Removed(ring, k))
  {
    hide Removed;
    var n := |ring|;
    var r := Removed(ring, k);
    RemovedAt(ring, k, 0);
    forall i | 0 <= i < n - 1
      ensures LinkedAt(r, i)
    {
      RemovedAt(ring, k, i);
      RemovedAt(ring, k, Succ(i, n - 1));
      RemovedAt(ring, k, Pred(i, n - 1));
      assert UnsplicedAt(ring, k, if i < k then i else i + 1);
    }
  }

  lemma RemovedMembers(ring: seq<ListItem>, k: nat)
    requires k < |ring| && Distinct(ring)
    ensures Distinct(Removed(ring, k))
    ensures forall y :: y in Removed(ring, k) <==> y in ring && y != ring[k]
  {
    var r := Removed(ring, k);
    forall y | y in ring && y != ring[k]
      ensures y in r
    {
      var i :| 0 <= i < |ring| && ring[i] == y;
      assert r[if i < k then i else i - 1] == y;
    }
  }

  lemma ApartFrom(ring: seq<ListItem>, k: nat)
    requires Distinct(ring) && k < |ring|
    ensures forall i :: 0 <= i < |ring| && i != k ==> ring[i] != ring[k]
  {
  }

  lemma Apart(ring: seq<ListItem>, i: nat, j: nat)
    requires Distinct(ring) && i < |ring| && j < |ring| && i != j
    ensures ring[i] != ring[j]
  {
  }
}
