// Bytes, 32-bit words as they lie in memory (lowest byte first) and numbers as they come in
// messages (highest byte first).

module Words {

  type Octet = n: int | 0 <= n < 0x100

  const WORD_LIMIT: nat := 0x1_0000_0000

  function Join(b0: Octet, b1: Octet, b2: Octet, b3: Octet): (w: nat)
    ensures w < WORD_LIMIT
  {
    b0 + 0x100 * b1 + 0x1_0000 * b2 + 0x100_0000 * b3
  }

  function WordAt(s: seq<Octet>, i: nat): (w: nat)
    requires i + 4 <= |s|
    ensures w < WORD_LIMIT
  {
    Join(s[i], s[i + 1], s[i + 2], s[i + 3])
  }

  function WordOctets(w: nat): (s: seq<Octet>)
    requires w < WORD_LIMIT
    ensures |s| == 4
  {
    [w % 0x100, w / 0x100 % 0x100, w / 0x1_0000 % 0x100, w / 0x100_0000]
  }

  lemma JoinDigits(w: nat)
    requires w < WORD_LIMIT
    ensures Join(w % 0x100, w / 0x100 % 0x100, w / 0x1_0000 % 0x100, w / 0x100_0000) == w
  {
    assert w / 0x1_0000 == w / 0x100 / 0x100;
    assert w / 0x100_0000 == w / 0x1_0000 / 0x100;
    assert w == w % 0x100 + 0x100 * (w / 0x100);
    assert w / 0x100 == w / 0x100 % 0x100 + 0x100 * (w / 0x1_0000);
    assert w / 0x1_0000 == w / 0x1_0000 % 0x100 + 0x100 * (w / 0x100_0000);
  }

  lemma WordRoundTrip(w: nat)
    requires w < WORD_LIMIT
    ensures WordAt(WordOctets(w), 0) == w
  {
    JoinDigits(w);
  }

  lemma WordWindow(s: seq<Octet>, i: nat, w: nat)
    requires i + 4 <= |s| && w < WORD_LIMIT && s[i..i + 4] == WordOctets(w)
    ensures WordAt(s, i) == w
  {
    WordRoundTrip(w);
    var t := s[i..i + 4];
    assert s[i] == t[0] && s[i + 1] == t[1] && s[i + 2] == t[2] && s[i + 3] == t[3];
  }

  // ----- Numbers in messages: highest byte first -----

  function BigEndian(s: seq<Octet>): (n: nat) {
    if s == [] then 0 else 0x100 * BigEndian(s[..|s| - 1]) + s[|s| - 1]
  }

  lemma {:induction false} BigEndianBound(s: seq<Octet>)
    requires |s| <= 4
    ensures BigEndian(s) < WORD_LIMIT
    ensures |s| <= 3 ==> BigEndian(s) < 0x100_0000
    ensures |s| <= 2 ==> BigEndian(s) < 0x1_0000
    ensures |s| <= 1 ==> BigEndian(s) < 0x100
  {
    if s != [] {
      BigEndianBound(s[..|s| - 1]);
    }
  }

  method ReadBigEndian(s: seq<Octet>, from: nat, n: nat) returns (v: nat)
    requires from + n <= |s|
    ensures v == BigEndian(s[from..from + n])
  {
    v := 0;
    for i := 0 to n
      invariant v == BigEndian(s[from..from + i])
    {
      assert s[from..from + i + 1][..i] == s[from..from + i];
      v := 0x100 * v + s[from + i];
    }
  }

  // n in k digits of a byte, highest first.
  function BigOctets(n: nat, k: nat): (s: seq<Octet>)
    ensures |s| == k
  {
    if k == 0 then [] else BigOctets(n / 0x100, k - 1) + [n % 0x100]
  }

  // How many numbers k bytes tell apart.
  function Range(k: nat): (p: nat)
    ensures p > 0
  {
    if k == 0 then 1 else 0x100 * Range(k - 1)
  }

  lemma {:induction false} BigOctetsRead(n: nat, k: nat)
    requires n < Range(k)
    ensures BigEndian(BigOctets(n, k)) == n
  {
    if k > 0 {
      BigOctetsRead(n / 0x100, k - 1);
      assert BigOctets(n, k)[..k - 1] == BigOctets(n / 0x100, k - 1);
    }
  }

  lemma {:induction false} BigEndianPrinted(s: seq<Octet>)
    ensures BigEndian(s) < Range(|s|) && BigOctets(BigEndian(s), |s|) == s
  {
    if s != [] {
      BigEndianPrinted(s[..|s| - 1]);
    }
  }

  // The same four bytes read from either end.
  lemma FourBigEndian(s: seq<Octet>)
    requires |s| == 4
    ensures BigEndian(s) == Join(s[3], s[2], s[1], s[0])
  {
    var t := s[..3];
    var u := t[..2];
    assert u[..1] == [s[0]] && [s[0]][..0] == [];
    assert BigEndian(u[..1]) == s[0];
    assert BigEndian(u) == 0x100 * (s[0] as int) + s[1];
    assert BigEndian(t) == 0x100 * BigEndian(u) + s[2];
  }

  // Four bytes are told by the word they make.
  lemma JoinInjective(a0: Octet, a1: Octet, a2: Octet, a3: Octet, b0: Octet, b1: Octet, b2: Octet, b3: Octet)
    requires Join(a0, a1, a2, a3) == Join(b0, b1, b2, b3)
    ensures a0 == b0 && a1 == b1 && a2 == b2 && a3 == b3
  {
    LowestSame(a0, a1 + 0x100 * (a2 + 0x100 * a3), b0, b1 + 0x100 * (b2 + 0x100 * b3));
    LowestSame(a1, a2 + 0x100 * a3, b1, b2 + 0x100 * b3);
    LowestSame(a2, a3, b2, b3);
  }

  lemma LowestSame(a: Octet, x: int, b: Octet, y: int)
    requires a + 0x100 * x == b + 0x100 * y
    ensures a == b && x == y
  {
  }

  // ----- Small common things -----

  function Min(a: nat, b: nat): nat {
    if a < b then a else b
  }

  // Pieces one behind the other.
  function Flatten(pieces: seq<seq<Octet>>): seq<Octet> {
    if pieces == [] then [] else Flatten(pieces[..|pieces| - 1]) + pieces[|pieces| - 1]
  }

  lemma FlattenMore(pieces: seq<seq<Octet>>, piece: seq<Octet>)
    ensures Flatten(pieces + [piece]) == Flatten(pieces) + piece
  {
    assert (pieces + [piece])[..|pieces|] == pieces;
  }

  // The difference of two 32-bit tick counts.
  function Elapsed(now: nat, last: nat): nat {
    (now - last) % WORD_LIMIT
  }

  // For two times less than a wrap apart it is the true time between them, and the count has
  // wrapped exactly if it reads lower.
  lemma ElapsedIsTime(now: nat, last: nat)
    requires last <= now < last + WORD_LIMIT
    ensures Elapsed(now % WORD_LIMIT, last % WORD_LIMIT) == now - last
    ensures now / WORD_LIMIT == last / WORD_LIMIT + (if now % WORD_LIMIT < last % WORD_LIMIT then 1 else 0)
  {
    var q, r := last / WORD_LIMIT, now / WORD_LIMIT;
    var x, y := last % WORD_LIMIT, now % WORD_LIMIT;
    assert last == q * WORD_LIMIT + x && now == r * WORD_LIMIT + y;
    if r == q {
      assert y - x == now - last;
    } else {
      assert r == q + 1;
      assert y - x + WORD_LIMIT == now - last;
      assert (y - x) % WORD_LIMIT == (y - x + WORD_LIMIT) % WORD_LIMIT;
    }
  }
}
