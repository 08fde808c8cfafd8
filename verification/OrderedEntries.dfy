// A list of entries kept in the order of their keys, as vListInsert files them
// (Middlewares/FreeRTOS-Kernel/list.c:139-212): behind every entry of an equal key.

module OrderedEntries {

  datatype Entry<T> = Entry(key: nat, owner: T)

  ghost predicate Sorted<T>(s: seq<Entry<T>>) {
    forall i, j :: 0 <= i < j < |s| ==> s[i].key <= s[j].key
  }

  // How many entries stand before a new one of this key.
  function Position<T>(s: seq<Entry<T>>, key: nat): (p: nat)
    ensures p <= |s|
    ensures forall i :: 0 <= i < p ==> s[i].key <= key
    ensures p < |s| ==> s[p].key > key
  {
    if s == [] || s[0].key > key then 0 else 1 + Position(s[1..], key)
  }

  function InsertOrdered<T>(s: seq<Entry<T>>, e: Entry<T>): seq<Entry<T>> {
    s[..Position(s, e.key)] + [e] + s[Position(s, e.key)..]
  }

  lemma InsertKeepsSorted<T>(s: seq<Entry<T>>, e: Entry<T>)
    requires Sorted(s)
    ensures Sorted(InsertOrdered(s, e))
  {
  }

  // Stability: everything of a smaller or equal key stays before the new entry, and everything
  // of a larger one comes behind it.
  lemma InsertIsStable<T>(s: seq<Entry<T>>, e: Entry<T>)
    requires Sorted(s)
    ensures forall i :: 0 <= i < |s| ==> (s[i].key <= e.key <==> i < Position(s, e.key))
  {
  }

  function Count<T(==)>(s: seq<Entry<T>>, t: T): nat {
    if s == [] then 0 else (if s[0].owner == t then 1 else 0) + Count(s[1..], t)
  }

  // The list with the owner's entry unlinked.
  function Without<T(==)>(s: seq<Entry<T>>, t: T): seq<Entry<T>> {
    if s == [] then [] else (if s[0].owner == t then [] else [s[0]]) + Without(s[1..], t)
  }

  lemma {:induction false} WithoutMembers<T(!new)>(s: seq<Entry<T>>, t: T)
    ensures forall e :: e in Without(s, t) <==> e in s && e.owner != t
  {
    if s != [] {
      WithoutMembers(s[1..], t);
    }
  }

  lemma {:induction false} CountConcat<T>(a: seq<Entry<T>>, b: seq<Entry<T>>, t: T)
    ensures Count(a + b, t) == Count(a, t) + Count(b, t)
  {
    if a == [] {
      assert a + b == b;
    } else {
      assert (a + b)[1..] == a[1..] + b;
      CountConcat(a[1..], b, t);
    }
  }

  lemma CountInsert<T>(s: seq<Entry<T>>, e: Entry<T>, t: T)
    ensures Count(InsertOrdered(s, e), t) == Count(s, t) + if e.owner == t then 1 else 0
  {
    var p := Position(s, e.key);
    CountConcat(s[..p], s[p..], t);
    CountConcat(s[..p], [e], t);
    CountConcat(s[..p] + [e], s[p..], t);
    assert s[..p] + s[p..] == s;
    assert [e][1..] == [];
  }

  lemma {:induction false} CountWithout<T>(s: seq<Entry<T>>, u: T, t: T)
    ensures Count(Without(s, u), t) == if t == u then 0 else Count(s, t)
  {
    if s != [] {
      CountWithout(s[1..], u, t);
      var head := if s[0].owner == u then [] else [s[0]];
      assert head != [] ==> head[1..] == [];
      CountConcat(head, Without(s[1..], u), t);
    }
  }

  lemma {:induction false} CountPositive<T>(s: seq<Entry<T>>, e: Entry<T>)
    requires e in s
    ensures Count(s, e.owner) > 0
  {
    if s[0] != e {
      CountPositive(s[1..], e);
    }
  }

  lemma {:induction false} CountWitness<T>(s: seq<Entry<T>>, t: T) returns (e: Entry<T>)
    requires Count(s, t) > 0
    ensures e in s && e.owner == t
  {
    if s[0].owner == t {
      e := s[0];
    } else {
      e := CountWitness(s[1..], t);
    }
  }

  lemma {:induction false} WithoutKeepsSorted<T(!new)>(s: seq<Entry<T>>, t: T)
    requires Sorted(s)
    ensures Sorted(Without(s, t))
  {
    if s != [] {
      WithoutKeepsSorted(s[1..], t);
      WithoutMembers(s[1..], t);
      var r := Without(s[1..], t);
      forall i | 0 <= i < |r|
        ensures s[0].key <= r[i].key
      {
        assert r[i] in s[1..];
      }
    }
  }

  lemma InsertMembers<T(!new)>(s: seq<Entry<T>>, e: Entry<T>)
    ensures forall x :: x in InsertOrdered(s, e) <==> x in s || x == e
  {
    var p := Position(s, e.key);
    assert s == s[..p] + s[p..];
  }
}
