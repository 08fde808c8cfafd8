// Event groups: bits that tasks wait for (Middlewares/FreeRTOS-Kernel/event_groups.c:183-647,
// 778-812). Each method is one section with the scheduler suspended.

module EventGroups {

  type Bits = bv32

  const CONTROL: Bits := 0xFF00_0000          // eventEVENT_BITS_CONTROL_BYTES
  const CLEAR_ON_EXIT: Bits := 0x0100_0000
  const UNBLOCKED_BY_SET: Bits := 0x0200_0000
  const WAIT_FOR_ALL: Bits := 0x0400_0000

  // ----- Word operations, named so that proofs work on names -----

  function Or(a: Bits, b: Bits): Bits { a | b }

  function AndNot(a: Bits, b: Bits): Bits { a & !b }

  // Some, or all, of the bits waited for are there: prvTestWaitCondition.
  predicate Met(bits: Bits, waitFor: Bits, all: bool) {
    if all then bits & waitFor == waitFor else bits & waitFor != 0
  }

  // ----- Bit by bit -----

  predicate HasBit(b: Bits, i: bv5) { (b >> i) & 1 == 1 }

  lemma FindBit(b: Bits) returns (i: bv5)
    requires b != 0
    ensures HasBit(b, i)
  {
    i := 0;
    if b & 0xFFFF == 0 { i := i + 16; }
    if (b >> i) & 0xFF == 0 { i := i + 8; }
    if (b >> i) & 0xF == 0 { i := i + 4; }
    if (b >> i) & 0x3 == 0 { i := i + 2; }
    if (b >> i) & 0x1 == 0 { i := i + 1; }
  }

  lemma BitOfWords(a: Bits, b: Bits, i: bv5)
    ensures HasBit(a & b, i) <==> HasBit(a, i) && HasBit(b, i)
    ensures HasBit(AndNot(a, b), i) <==> HasBit(a, i) && !HasBit(b, i)
    ensures HasBit(Or(a, b), i) <==> HasBit(a, i) || HasBit(b, i)
    ensures !HasBit(0, i)
  {
  }

  lemma Covered(bits: Bits, waitFor: Bits)
    ensures bits & waitFor == waitFor <==> AndNot(waitFor, bits) == 0
  {
  }

  // A task that waits for all its bits is served once each of them is there, one that waits for
  // any once one is.
  lemma MetBitwise(bits: Bits, waitFor: Bits)
    ensures Met(bits, waitFor, true) <==> forall i: bv5 :: HasBit(waitFor, i) ==> HasBit(bits, i)
    ensures Met(bits, waitFor, false) <==> exists i: bv5 :: HasBit(waitFor, i) && HasBit(bits, i)
  {
    hide HasBit, AndNot, Or;
    Covered(bits, waitFor);
    if AndNot(waitFor, bits) != 0 {
      var i := FindBit(AndNot(waitFor, bits));
      BitOfWords(waitFor, bits, i);
    }
    if bits & waitFor != 0 {
      var i := FindBit(bits & waitFor);
      BitOfWords(bits, waitFor, i);
    }
    forall i: bv5
      ensures HasBit(AndNot(waitFor, bits), i) <==> HasBit(waitFor, i) && !HasBit(bits, i)
      ensures HasBit(bits & waitFor, i) <==> HasBit(bits, i) && HasBit(waitFor, i)
      ensures !HasBit(0, i)
    {
      BitOfWords(waitFor, bits, i);
      BitOfWords(bits, waitFor, i);
    }
  }

  predicate NoControl(b: Bits) { b & CONTROL == 0 }

  lemma OrLaws(a: Bits, b: Bits, c: Bits)
    ensures Or(a, Or(b, c)) == Or(Or(a, b), c) && Or(a, b) == Or(b, a) && Or(0, a) == a && Or(a, 0) == a
  {
  }

  // What clearing leaves satisfies no more than before.
  lemma ClearingMeetsLess(bits: Bits, gone: Bits, waitFor: Bits, all: bool)
    requires Met(AndNot(bits, gone), waitFor, all) && waitFor != 0
    ensures Met(bits, waitFor, all)
  {
  }

  lemma NoControlKept(a: Bits, b: Bits)
    requires NoControl(a)
    ensures NoControl(AndNot(a, b))
    ensures NoControl(b) ==> NoControl(Or(a, b))
  {
  }

  // ----- A waiting task: what it waits for and how, packed in its list item -----

  datatype Waiter = Waiter(task: nat, item: Bits)

  function Packed(waitFor: Bits, clear: bool, all: bool): Bits {
    Or(Or(waitFor, if clear then CLEAR_ON_EXIT else 0), if all then WAIT_FOR_ALL else 0)
  }

  function WaitsFor(item: Bits): Bits { AndNot(item, CONTROL) }

  predicate WaitsForAll(item: Bits) { item & WAIT_FOR_ALL != 0 }

  predicate ClearsOnExit(item: Bits) { item & CLEAR_ON_EXIT != 0 }

  lemma FlagStripped(b: Bits, flag: Bits)
    requires flag == 0 || flag == CLEAR_ON_EXIT || flag == WAIT_FOR_ALL
    ensures AndNot(Or(b, flag), CONTROL) == AndNot(b, CONTROL)
  {
  }

  // Masking the control bytes off a word without any changes nothing.
  lemma ControlFree(b: Bits)
    requires NoControl(b)
    ensures AndNot(b, CONTROL) == b
  {
  }

  lemma StripPacked(waitFor: Bits, clear: bool, all: bool)
    requires NoControl(waitFor)
    ensures AndNot(Packed(waitFor, clear, all), CONTROL) == waitFor
  {
    hide Or, AndNot, NoControl;
    var c: Bits := if clear then CLEAR_ON_EXIT else 0;
    FlagStripped(waitFor, c);
    FlagStripped(Or(waitFor, c), if all then WAIT_FOR_ALL else 0);
    ControlFree(waitFor);
  }

  lemma AllPacked(waitFor: Bits, clear: bool, all: bool)
    requires NoControl(waitFor)
    ensures WaitsForAll(Packed(waitFor, clear, all)) == all
  {
    if clear { if all {} } else if all {}
  }

  lemma ClearPacked(waitFor: Bits, clear: bool, all: bool)
    requires NoControl(waitFor)
    ensures ClearsOnExit(Packed(waitFor, clear, all)) == clear
  {
    if clear { if all {} } else if all {}
  }

  lemma PackUnpack(waitFor: Bits, clear: bool, all: bool)
    requires NoControl(waitFor)
    ensures var item := Packed(waitFor, clear, all);
            WaitsFor(item) == waitFor && WaitsForAll(item) == all && ClearsOnExit(item) == clear
  {
    hide NoControl, AndNot, WaitsForAll, ClearsOnExit, Packed;
    StripPacked(waitFor, clear, all);
    AllPacked(waitFor, clear, all);
    ClearPacked(waitFor, clear, all);
  }

  predicate Satisfied(w: Waiter, bits: Bits) {
    Met(bits, WaitsFor(w.item), WaitsForAll(w.item))
  }

  // The value a woken task finds, and what it makes of it.
  function Stamped(bits: Bits): Bits { Or(bits, UNBLOCKED_BY_SET) }

  predicate WokenBySet(value: Bits) { value & UNBLOCKED_BY_SET != 0 }

  function Result(value: Bits): Bits { AndNot(value, CONTROL) }

  lemma StampedResult(bits: Bits)
    requires NoControl(bits)
    ensures WokenBySet(Stamped(bits)) && Result(Stamped(bits)) == bits
  {
  }

  // A task whose time was up finds no such mark.
  lemma UnstampedIsKnown(bits: Bits)
    requires NoControl(bits)
    ensures !WokenBySet(bits)
  {
  }

  // ----- What setting bits does to the list -----

  function Woken(list: seq<Waiter>, bits: Bits): seq<Waiter> {
    if list == [] then []
    else (if Satisfied(list[0], bits) then [list[0]] else []) + Woken(list[1..], bits)
  }

  function Left(list: seq<Waiter>, bits: Bits): seq<Waiter> {
    if list == [] then []
    else (if Satisfied(list[0], bits) then [] else [list[0]]) + Left(list[1..], bits)
  }

  // The bits that the woken tasks asked to have cleared.
  function Cleared(woken: seq<Waiter>): Bits {
    if woken == [] then 0
    else Or(if ClearsOnExit(woken[0].item) then WaitsFor(woken[0].item) else 0, Cleared(woken[1..]))
  }

  function BitsAfterSet(bits: Bits, set1: Bits, list: seq<Waiter>): Bits {
    AndNot(Or(bits, set1), Cleared(Woken(list, Or(bits, set1))))
  }

  // The bits that go: those some woken task waited for with clear on exit.
  lemma {:induction false} ClearedBitwise(woken: seq<Waiter>, i: bv5)
    ensures HasBit(Cleared(woken), i) <==>
            exists w :: w in woken && ClearsOnExit(w.item) && HasBit(WaitsFor(w.item), i)
  {
    hide HasBit, ClearsOnExit, WaitsFor, Or;
    BitOfWords(0, 0, i);
    if woken != [] {
      var first: Bits := if ClearsOnExit(woken[0].item) then WaitsFor(woken[0].item) else 0;
      BitOfWords(first, Cleared(woken[1..]), i);
      ClearedBitwise(woken[1..], i);
      assert forall w :: w in woken <==> w == woken[0] || w in woken[1..];
    }
  }

  // What is left in the end, bit by bit: old and new bits, less those.
  lemma FinalBitwise(bits: Bits, set1: Bits, list: seq<Waiter>, i: bv5)
    ensures HasBit(BitsAfterSet(bits, set1, list), i) <==>
            && (HasBit(bits, i) || HasBit(set1, i))
            && !exists w :: w in list && Satisfied(w, Or(bits, set1))
                            && ClearsOnExit(w.item) && HasBit(WaitsFor(w.item), i)
  {
    hide HasBit, ClearsOnExit, WaitsFor, Or, AndNot, Satisfied;
    var all := Or(bits, set1);
    var woken := Woken(list, all);
    BitOfWords(bits, set1, i);
    BitOfWords(all, Cleared(woken), i);
    ClearedBitwise(woken, i);
    forall w
      ensures w in woken <==> w in list && Satisfied(w, all)
    {
      WokenExactly(list, all, w);
    }
  }

  // A waiter is woken if and only if the old and the new bits together satisfy it.
  lemma {:induction false} WokenExactly(list: seq<Waiter>, bits: Bits, w: Waiter)
    ensures w in Woken(list, bits) <==> w in list && Satisfied(w, bits)
    ensures w in Left(list, bits) <==> w in list && !Satisfied(w, bits)
  {
    hide Satisfied;
    if list != [] {
      WokenExactly(list[1..], bits, w);
    }
  }

  // Nobody is lost or doubled.
  lemma {:induction false} WokenOrLeft(list: seq<Waiter>, bits: Bits)
    ensures multiset(Woken(list, bits)) + multiset(Left(list, bits)) == multiset(list)
  {
    hide Satisfied;
    if list != [] {
      WokenOrLeft(list[1..], bits);
      assert list == [list[0]] + list[1..];
    }
  }

  lemma {:induction false} WokenConcat(a: seq<Waiter>, b: seq<Waiter>, bits: Bits)
    ensures Woken(a + b, bits) == Woken(a, bits) + Woken(b, bits)
  {
    hide Satisfied;
    if a == [] {
      assert a + b == b;
    } else {
      var head := if Satisfied(a[0], bits) then [a[0]] else [];
      assert (a + b)[1..] == a[1..] + b;
      WokenConcat(a[1..], b, bits);
      assert head + (Woken(a[1..], bits) + Woken(b, bits)) == (head + Woken(a[1..], bits)) + Woken(b, bits);
    }
  }

  lemma {:induction false} LeftConcat(a: seq<Waiter>, b: seq<Waiter>, bits: Bits)
    ensures Left(a + b, bits) == Left(a, bits) + Left(b, bits)
  {
    hide Satisfied;
    if a == [] {
      assert a + b == b;
    } else {
      var head := if Satisfied(a[0], bits) then [] else [a[0]];
      assert (a + b)[1..] == a[1..] + b;
      LeftConcat(a[1..], b, bits);
      assert head + (Left(a[1..], bits) + Left(b, bits)) == (head + Left(a[1..], bits)) + Left(b, bits);
    }
  }

  // One more waiter at the end.
  lemma OneMore(a: seq<Waiter>, w: Waiter, bits: Bits)
    ensures Woken(a + [w], bits) == Woken(a, bits) + if Satisfied(w, bits) then [w] else []
    ensures Left(a + [w], bits) == Left(a, bits) + if Satisfied(w, bits) then [] else [w]
  {
    hide Satisfied;
    WokenConcat(a, [w], bits);
    LeftConcat(a, [w], bits);
    assert [w][1..] == [];
  }

  lemma OneMoreCleared(a: seq<Waiter>, w: Waiter)
    ensures Cleared(a + [w]) == if ClearsOnExit(w.item) then Or(Cleared(a), WaitsFor(w.item)) else Cleared(a)
  {
    hide Or, ClearsOnExit, WaitsFor;
    ClearedConcat(a, [w]);
    assert [w][1..] == [];
    OrLaws(if ClearsOnExit(w.item) then WaitsFor(w.item) else 0, 0, 0);
    OrLaws(Cleared(a), 0, 0);
  }

  lemma {:induction false} ClearedConcat(a: seq<Waiter>, b: seq<Waiter>)
    ensures Cleared(a + b) == Or(Cleared(a), Cleared(b))
  {
    hide Or, ClearsOnExit, WaitsFor;
    if a == [] {
      assert a + b == b;
      OrLaws(Cleared(b), 0, 0);
    } else {
      assert (a + b)[1..] == a[1..] + b;
      ClearedConcat(a[1..], b);
      OrLaws(if ClearsOnExit(a[0].item) then WaitsFor(a[0].item) else 0, Cleared(a[1..]), Cleared(b));
    }
  }

  lemma NothingYet(bits: Bits)
    ensures Woken([], bits) == [] && Left([], bits) == [] && Cleared([]) == 0
  {
  }

  // Where in the list a waiter stands makes no difference to the bits cleared.
  lemma ClearedMoved(a: seq<Waiter>, w: Waiter, b: seq<Waiter>)
    ensures Cleared(a + [w] + b) == Cleared([w] + (a + b))
  {
    hide Or, Cleared;
    ClearedConcat(a + [w], b);
    ClearedConcat(a, [w]);
    ClearedConcat([w], a + b);
    ClearedConcat(a, b);
    OrLaws(Cleared(a), Cleared([w]), Cleared(b));
    OrLaws(Cleared([w]), Cleared(a), Cleared(b));
  }

  lemma MultisetWithout(a: seq<Waiter>, w: Waiter, b: seq<Waiter>)
    ensures multiset(a + b) == multiset(a + [w] + b) - multiset{w}
  {
    assert multiset(a + [w] + b) == multiset(a) + multiset{w} + multiset(b);
  }

  // Of two lists with the same waiters, the first of one stands somewhere in the other.
  lemma Pulled(s: seq<Waiter>, t: seq<Waiter>) returns (a: seq<Waiter>, b: seq<Waiter>)
    requires multiset(s) == multiset(t) && s != []
    ensures t == a + [s[0]] + b && multiset(s[1..]) == multiset(a + b) && |a + b| < |t|
  {
    var w := s[0];
    assert w in multiset(s);
    assert w in t;
    var k :| 0 <= k < |t| && t[k] == w;
    a, b := t[..k], t[k + 1..];
    assert t == a + [w] + b;
    assert s == [w] + s[1..];
    assert multiset(s[1..]) == multiset(s) - multiset{w};
    MultisetWithout(a, w, b);
  }

  lemma {:induction false} ClearedPermuted(s: seq<Waiter>, t: seq<Waiter>)
    requires multiset(s) == multiset(t)
    ensures Cleared(s) == Cleared(t)
    decreases |t|
  {
    hide Or, ClearsOnExit, WaitsFor;
    if s == [] {
      assert |t| == |multiset(t)| == 0;
    } else {
      var a, b := Pulled(s, t);
      ClearedMoved(a, s[0], b);
      ClearedPermuted(s[1..], a + b);
      assert ([s[0]] + (a + b))[1..] == a + b;
    }
  }

  lemma {:induction false} WokenPermuted(s: seq<Waiter>, t: seq<Waiter>, bits: Bits)
    requires multiset(s) == multiset(t)
    ensures multiset(Woken(s, bits)) == multiset(Woken(t, bits))
    decreases |t|
  {
    hide Satisfied;
    if s == [] {
      assert |t| == |multiset(t)| == 0;
    } else {
      var a, b := Pulled(s, t);
      WokenPermuted(s[1..], a + b, bits);
      WokenConcat(a + [s[0]], b, bits);
      OneMore(a, s[0], bits);
      WokenConcat(a, b, bits);
    }
  }

  // The bits after a set do not depend on the order of the waiting list, and neither does who
  // is woken.
  lemma OrderIrrelevant(bits: Bits, set1: Bits, s: seq<Waiter>, t: seq<Waiter>)
    requires multiset(s) == multiset(t)
    ensures BitsAfterSet(bits, set1, s) == BitsAfterSet(bits, set1, t)
    ensures multiset(Woken(s, Or(bits, set1))) == multiset(Woken(t, Or(bits, set1)))
  {
    WokenPermuted(s, t, Or(bits, set1));
    ClearedPermuted(Woken(s, Or(bits, set1)), Woken(t, Or(bits, set1)));
  }

  // ----- The invariant: nobody waits for what is already there -----

  ghost predicate NoneSatisfied(list: seq<Waiter>, bits: Bits) {
    forall w :: w in list ==> !Satisfied(w, bits) && WaitsFor(w.item) != 0
  }

  lemma ClearingKeeps(list: seq<Waiter>, bits: Bits, gone: Bits)
    requires NoneSatisfied(list, bits)
    ensures NoneSatisfied(list, AndNot(bits, gone))
  {
    hide AndNot, Met, WaitsFor;
    forall w | w in list
      ensures !Satisfied(w, AndNot(bits, gone))
    {
      assert !Satisfied(w, bits);
      if Satisfied(w, AndNot(bits, gone)) {
        ClearingMeetsLess(bits, gone, WaitsFor(w.item), WaitsForAll(w.item));
      }
    }
  }

  lemma LeftUnsatisfied(list: seq<Waiter>, before: Bits, bits: Bits)
    requires NoneSatisfied(list, before)
    ensures NoneSatisfied(Left(list, bits), bits)
  {
    hide Satisfied, WaitsFor;
    forall w | w in Left(list, bits)
      ensures !Satisfied(w, bits) && WaitsFor(w.item) != 0
    {
      WokenExactly(list, bits, w);
    }
  }

  datatype Outcome = Returned(bits: Bits) | Blocked

  class EventGroup {
    var bits: Bits
    var waiting: seq<Waiter>

    ghost predicate Valid()
      reads this
    {
      NoControl(bits) && NoneSatisfied(waiting, bits)
    }

    constructor ()
      ensures Valid() && bits == 0 && waiting == []
    {
      bits, waiting := 0, [];
    }

    // xEventGroupSetBits: one walk along the list, unlinking as it goes. Each task woken is given
    // the bits of its own moment; all are the same, the bits before any were cleared again.
    method SetBits(set1: Bits) returns (after: Bits, woken: seq<Waiter>, values: seq<Bits>)
      requires Valid() && NoControl(set1)
      modifies this
      ensures Valid() && after == bits
      ensures woken == Woken(old(waiting), Or(old(bits), set1)) && waiting == Left(old(waiting), Or(old(bits), set1))
      ensures |values| == |woken| && forall i :: 0 <= i < |values| ==> values[i] == Stamped(Or(old(bits), set1))
      ensures bits == BitsAfterSet(old(bits), set1, old(waiting))
    {
      hide Or, AndNot, Satisfied, NoneSatisfied, NoControl, ClearsOnExit, WaitsFor, Woken, Left, Cleared, Stamped;
      NothingYet(Or(bits, set1));
      ghost var list, was := waiting, bits;
      NoControlKept(bits, set1);
      bits := Or(bits, set1);
      var toClear: Bits := 0;
      woken, values := [], [];
      var i := 0;
      ghost var seen := 0;
      while i < |waiting|
        invariant 0 <= seen <= |list| && 0 <= i <= |waiting| && waiting[i..] == list[seen..]
        invariant woken == Woken(list[..seen], bits) && waiting[..i] == Left(list[..seen], bits)
        invariant toClear == Cleared(woken)
        invariant bits == Or(was, set1)
        invariant |values| == |woken| && forall k :: 0 <= k < |values| ==> values[k] == Stamped(Or(was, set1))
        decreases |waiting| - i
      {
        var w := waiting[i];
        assert w == waiting[i..][0] == list[seen];
        assert list[..seen + 1] == list[..seen] + [w];
        OneMore(list[..seen], w, bits);
        if Satisfied(w, bits) {
          OneMoreCleared(woken, w);
          if ClearsOnExit(w.item) {
            toClear := Or(toClear, WaitsFor(w.item));
          }
          woken, values := woken + [w], values + [Stamped(bits)];
          waiting := waiting[..i] + waiting[i + 1..];
        } else {
          i := i + 1;
        }
        seen := seen + 1;
        assert list[seen - 1..][1..] == list[seen..];
      }
      assert list[..seen] == list && waiting[..i] == waiting;
      LeftUnsatisfied(list, was, bits);
      ClearingKeeps(waiting, bits, toClear);
      NoControlKept(bits, toClear);
      bits := AndNot(bits, toClear);
      after := bits;
    }

    // xEventGroupClearBits
    method ClearBits(clear: Bits) returns (before: Bits)
      requires Valid() && NoControl(clear)
      modifies this`bits
      ensures Valid() && before == old(bits) && bits == AndNot(old(bits), clear)
    {
      hide AndNot, NoneSatisfied, NoControl;
      before := bits;
      ClearingKeeps(waiting, bits, clear);
      NoControlKept(bits, clear);
      bits := AndNot(bits, clear);
    }

    // xEventGroupWaitBits, up to the point where the task blocks.
    method WaitBits(task: nat, waitFor: Bits, clear: bool, all: bool, mayBlock: bool) returns (r: Outcome)
      requires Valid() && NoControl(waitFor) && waitFor != 0
      modifies this
      ensures Valid()
      ensures Met(old(bits), waitFor, all) ==>
                && r == Returned(old(bits)) && waiting == old(waiting)
                && bits == if clear then AndNot(old(bits), waitFor) else old(bits)
      ensures !Met(old(bits), waitFor, all) && !mayBlock ==>
                r == Returned(old(bits)) && bits == old(bits) && waiting == old(waiting)
      ensures !Met(old(bits), waitFor, all) && mayBlock ==>
                r == Blocked && bits == old(bits)
                && waiting == old(waiting) + [Waiter(task, Packed(waitFor, clear, all))]
    {
      hide AndNot, NoControl, Met, WaitsFor, WaitsForAll, Packed;
      if Met(bits, waitFor, all) {
        r := Returned(bits);
        if clear {
          ClearingKeeps(waiting, bits, waitFor);
          NoControlKept(bits, waitFor);
          bits := AndNot(bits, waitFor);
        }
      } else if !mayBlock {
        r := Returned(bits);
      } else {
        PackUnpack(waitFor, clear, all);
        waiting := waiting + [Waiter(task, Packed(waitFor, clear, all))];
        r := Blocked;
      }
    }

    // xEventGroupSync, up to the point where the task blocks: set, then all or nothing.
    method Sync(task: nat, set1: Bits, waitFor: Bits, mayBlock: bool) returns (r: Outcome, woken: seq<Waiter>)
      requires Valid() && NoControl(set1) && NoControl(waitFor) && waitFor != 0
      modifies this
      ensures Valid()
      ensures woken == Woken(old(waiting), Or(old(bits), set1))
      ensures var full := Or(old(bits), set1);
              var rest := BitsAfterSet(old(bits), set1, old(waiting));
              var left := Left(old(waiting), full);
              if Met(full, waitFor, true)
              then r == Returned(full) && bits == AndNot(rest, waitFor) && waiting == left
              else if !mayBlock then r == Returned(rest) && bits == rest && waiting == left
              else r == Blocked && bits == rest && waiting == left + [Waiter(task, Packed(waitFor, true, true))]
    {
      hide Or, AndNot, NoControl, Met, WaitsFor, WaitsForAll, Packed, Woken, Left, Cleared;
      var original := bits;
      var after, values;
      after, woken, values := SetBits(set1);
      if Met(Or(original, set1), waitFor, true) {
        r := Returned(Or(original, set1));
        ClearingKeeps(waiting, bits, waitFor);
        NoControlKept(bits, waitFor);
        bits := AndNot(bits, waitFor);
      } else if mayBlock {
        PackUnpack(waitFor, true, true);
        if Met(bits, waitFor, true) {
          ClearingMeetsLess(Or(original, set1), Cleared(woken), waitFor, true);
        }
        waiting := waiting + [Waiter(task, Packed(waitFor, true, true))];
        r := Blocked;
      } else {
        r := Returned(bits);
      }
    }

    // The kernel takes a task whose time is up off the list.
    method TimeOut(k: nat)
      requires Valid() && k < |waiting|
      modifies this`waiting
      ensures Valid() && waiting == old(waiting)[..k] + old(waiting)[k + 1..]
    {
      waiting := waiting[..k] + waiting[k + 1..];
    }

    // What a task whose time was up does when it runs again: xEventGroupWaitBits, second half,
    // and xEventGroupSync's with clear and all set.
    method AfterTimeOut(waitFor: Bits, clear: bool, all: bool) returns (r: Bits)
      requires Valid()
      modifies this`bits
      ensures Valid() && r == old(bits)
      ensures bits == if Met(old(bits), waitFor, all) && clear then AndNot(old(bits), waitFor) else old(bits)
    {
      hide AndNot, NoControl, NoneSatisfied, Met;
      r := bits;
      if Met(bits, waitFor, all) {
        if clear {
          ClearingKeeps(waiting, bits, waitFor);
          NoControlKept(bits, waitFor);
          bits := AndNot(bits, waitFor);
        }
      }
      ControlFree(r);
    }
  }
}
