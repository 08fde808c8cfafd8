// The slot without a marker above it: what a transfer left open can still make of it.

module UnmarkedSlot {
  import opened Words
  import opened Flash
  import opened BootGate
  import opened FlashServer

  // `good` is a set of complete images.

  // A slot that is complete or does not look startable.
  predicate SafeSlot(good: set<seq<Octet>>, slot: seq<Octet>)
    requires |slot| == APP_SLOT_SIZE
  {
    Plausible(slot) ==> slot in good
  }

  // How many bytes 0x36 can still write. At a misaligned offset every program fails.
  function Room(x: Xfer): nat
    requires x.Fits()
  {
    if x.Open() && x.written % 8 == 0 then x.size - x.written else 0
  }

  // What 0x36 requests can lay over the slot from x.written on, without another 0x34: any
  // doublewords, padded behind the announced size.
  ghost predicate Fill(x: Xfer, q: seq<Octet>)
    requires x.Fits()
  {
    && |q| % 8 == 0 && |q| <= RoundUp8(Room(x)) && x.written + |q| <= APP_SLOT_SIZE
    && forall k :: Room(x) <= k < |q| ==> q[k] == ERASED
  }

  function Overlaid(slot: seq<Octet>, at: nat, q: seq<Octet>): (r: seq<Octet>)
    requires at + |q| <= |slot|
    ensures |r| == |slot|
  {
    slot[..at] + q + slot[at + |q|..]
  }

  // Whatever the transfer left open can make of the slot is safe without a marker.
  ghost predicate SafeUnmarked(good: set<seq<Octet>>, s: State)
    requires s.x.Fits()
  {
    forall q :: Fill(s.x, q) ==> SafeSlot(good, Overlaid(Slot(s.flash), s.x.written, q))
  }

  // The condition spelt out: the slot is complete or implausible, and there is no room left
  // in which vectors could be written, or other bytes under vectors that are there.
  predicate SafeToRepeat(good: set<seq<Octet>>, s: State)
    requires s.x.Fits()
  {
    && SafeSlot(good, Slot(s.flash))
    && if s.x.written == 0 then Room(s.x) < 8 else Room(s.x) == 0 || !Plausible(Slot(s.flash))
  }

  lemma VectorsDecide(slot: seq<Octet>, other: seq<Octet>)
    requires |slot| == |other| == APP_SLOT_SIZE && slot[..8] == other[..8]
    ensures Plausible(slot) <==> Plausible(other)
  {
    assert forall k :: 0 <= k < 8 ==> slot[..8][k] == slot[k] && other[..8][k] == other[k];
  }

  lemma ErasedVectorsImplausible(slot: seq<Octet>)
    requires |slot| == APP_SLOT_SIZE && slot[7] == ERASED
    ensures !Plausible(slot)
  {
    assert WordAt(slot, 4) >= 0x100_0000 * 0xFF;
  }

  // The spelt-out condition is enough for any set of images.
  lemma RepeatIsSafe(good: set<seq<Octet>>, s: State)
    requires s.x.Fits() && SafeToRepeat(good, s)
    ensures SafeUnmarked(good, s)
  {
    hide Plausible, Slot;
    var slot, w := Slot(s.flash), s.x.written;
    forall q | Fill(s.x, q)
      ensures SafeSlot(good, Overlaid(slot, w, q))
    {
      var r := Overlaid(slot, w, q);
      if q == [] {
        assert r == slot;
      } else if w == 0 {
        assert r[7] == q[7] == ERASED;
        ErasedVectorsImplausible(r);
      } else {
        assert r[..8] == slot[..8];
        VectorsDecide(r, slot);
      }
    }
  }

  // One doubleword in 256 variants.
  function Variant(v: Octet, rest: seq<Octet>): (q: seq<Octet>)
    requires |rest| == 7
    ensures |q| == 8 && q[0] == v
  {
    [v] + rest
  }

  ghost function Variants(slot: seq<Octet>, at: nat, rest: seq<Octet>, n: nat): set<seq<Octet>>
    requires at + 8 <= |slot| && |rest| == 7 && n <= 0x100
  {
    set v: Octet | v < n :: Overlaid(slot, at, Variant(v, rest))
  }

  lemma {:induction false} ManyVariants(slot: seq<Octet>, at: nat, rest: seq<Octet>, n: nat)
    requires at + 8 <= |slot| && |rest| == 7 && n <= 0x100
    ensures |Variants(slot, at, rest, n)| == n
  {
    if n > 0 {
      ManyVariants(slot, at, rest, n - 1);
      var last := Overlaid(slot, at, Variant(n - 1, rest));
      var before := Variants(slot, at, rest, n - 1);
      assert forall r :: r in before ==> r[at] < n - 1;
      assert last[at] == n - 1;
      assert Variants(slot, at, rest, n) == before + {last};
    } else {
      assert Variants(slot, at, rest, 0) == {};
    }
  }

  lemma MoreThanMembers<T>(small: set<T>, big: set<T>)
    requires |small| < |big|
    ensures exists x :: x in big && x !in small
  {
    if forall x :: x in big ==> x in small {
      assert big <= small;
      SubsetSize(big, small);
    }
  }

  lemma {:induction false} SubsetSize<T>(a: set<T>, b: set<T>)
    requires a <= b
    ensures |a| <= |b|
    decreases a
  {
    if x :| x in a {
      SubsetSize(a - {x}, b - {x});
    }
  }

  lemma VariantOutside(good: set<seq<Octet>>, slot: seq<Octet>, at: nat, rest: seq<Octet>) returns (q: seq<Octet>)
    requires at + 8 <= |slot| && |rest| == 7 && |good| < 0x100
    ensures |q| == 8 && q[1..] == rest && Overlaid(slot, at, q) !in good
  {
    ManyVariants(slot, at, rest, 0x100);
    MoreThanMembers(good, Variants(slot, at, rest, 0x100));
    var r :| r in Variants(slot, at, rest, 0x100) && r !in good;
    var v: Octet :| v < 0x100 && r == Overlaid(slot, at, Variant(v, rest));
    q := Variant(v, rest);
  }

  // Stack pointer at the foot of RAM, reset vector at the foot of the slot.
  const VECTORS_REST: seq<Octet> := [0x00, 0x00, 0x20, 0x01, 0x70, 0x00, 0x08]

  lemma VectorsPlausible(slot: seq<Octet>)
    requires |slot| == APP_SLOT_SIZE && slot[1..8] == VECTORS_REST
    ensures Plausible(slot)
  {
    var t := slot[1..8];
    assert slot[1] == t[0] && slot[2] == t[1] && slot[3] == t[2] && slot[4] == t[3];
    assert slot[5] == t[4] && slot[6] == t[5] && slot[7] == t[6];
  }

  // A slot the open transfer can still spoil, among fewer than 256 images.
  lemma Spoiled(good: set<seq<Octet>>, s: State) returns (q: seq<Octet>)
    requires s.x.Fits() && |good| < 0x100 && SafeSlot(good, Slot(s.flash)) && !SafeToRepeat(good, s)
    ensures Fill(s.x, q) && !SafeSlot(good, Overlaid(Slot(s.flash), s.x.written, q))
  {
    hide Plausible, Slot;
    var slot, w := Slot(s.flash), s.x.written;
    if w == 0 {
      q := VariantOutside(good, slot, 0, VECTORS_REST);
      var r := Overlaid(slot, 0, q);
      assert r[1..8] == q[1..];
      VectorsPlausible(r);
    } else {
      q := VariantOutside(good, slot, w, Blank(7));
      var r := Overlaid(slot, w, q);
      assert r[..8] == slot[..8];
      VectorsDecide(r, slot);
      assert forall k :: 1 <= k < 8 ==> q[k] == q[1..][k - 1];
    }
  }

  // And for fewer than 256 images it is the very condition.
  lemma SafeToRepeatExactly(good: set<seq<Octet>>, s: State)
    requires s.x.Fits() && |good| < 0x100
    ensures SafeUnmarked(good, s) <==> SafeToRepeat(good, s)
  {
    hide Plausible, Slot;
    if SafeToRepeat(good, s) {
      RepeatIsSafe(good, s);
    } else if SafeSlot(good, Slot(s.flash)) {
      var q := Spoiled(good, s);
    } else {
      NothingLaid(good, s);
    }
  }

  lemma NothingLaid(good: set<seq<Octet>>, s: State)
    requires s.x.Fits()
    ensures SafeUnmarked(good, s) ==> SafeSlot(good, Slot(s.flash))
  {
    hide Plausible, Slot;
    assert Fill(s.x, []);
    assert Overlaid(Slot(s.flash), s.x.written, []) == Slot(s.flash);
  }
}
