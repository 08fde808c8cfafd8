// What a 0x2C request looks like to the tester who writes it, and which records it may name
// (Core/Src/uds_service.c:84-102, 1466-1578).

module DidRequests {
  import opened Words
  import opened DynamicDids

  // ----- Records -----

  // Positions in an identifier count from 1.
  predicate HasPosition(w: World, src: nat, p: nat) {
    src in w.sources && 1 <= p <= |w.sources[src]|
  }

  predicate IsFlash(a: nat) { 0x0800_0000 <= a < 0x0802_0000 }

  predicate IsRam(a: nat) { 0x2000_0000 <= a < 0x2000_8000 }

  // A record by identifier is valid exactly if it names something, and every byte it names is
  // there.
  lemma IdRecordExactly(src: nat, position: nat, size: nat, w: World)
    ensures RecordOk(FromDid(src, position, size), w) <==>
            size > 0 && forall p: nat :: position <= p < position + size ==> HasPosition(w, src, p)
  {
    if size > 0 && forall p: nat :: position <= p < position + size ==> HasPosition(w, src, p) {
      assert HasPosition(w, src, position) && HasPosition(w, src, position + size - 1);
    }
  }

  // A record by address is valid exactly if it names 1..56 bytes, all of them flash or all of
  // them RAM.
  lemma MemoryRecordExactly(addr: nat, size: nat, w: World)
    ensures RecordOk(FromMemory(addr, size), w) <==>
            && 0 < size <= 56
            && (|| (forall a: nat :: addr <= a < addr + size ==> IsFlash(a))
                || (forall a: nat :: addr <= a < addr + size ==> IsRam(a)))
  {
    if 0 < size {
      if forall a: nat :: addr <= a < addr + size ==> IsFlash(a) {
        assert IsFlash(addr) && IsFlash(addr + size - 1);
      }
      if forall a: nat :: addr <= a < addr + size ==> IsRam(a) {
        assert IsRam(addr) && IsRam(addr + size - 1);
      }
    }
  }

  // ----- Requests -----

  lemma Product(a: nat, b: nat, width: nat)
    requires a <= b
    ensures a * width <= b * width && (a + 1) * width == a * width + width
  {
  }

  // Rows of one width, one behind the other.
  lemma {:induction false} RowsAt(rows: seq<seq<Octet>>, width: nat, i: nat)
    requires forall r :: r in rows ==> |r| == width
    requires i <= |rows|
    ensures |Flatten(rows)| == |rows| * width && i * width <= |rows| * width
    ensures i < |rows| ==> (i + 1) * width <= |Flatten(rows)| && Flatten(rows)[i * width..(i + 1) * width] == rows[i]
    decreases |rows|
  {
    Product(i, |rows|, width);
    if rows != [] {
      var front, last := rows[..|rows| - 1], rows[|rows| - 1];
      assert last in rows;
      Product(|front|, |front|, width);
      if i < |front| {
        RowsAt(front, width, i);
        Product(i + 1, |front|, width);
        Product(i, i, width);
        assert Flatten(rows)[i * width..(i + 1) * width] == Flatten(front)[i * width..(i + 1) * width];
      } else {
        RowsAt(front, width, 0);
      }
    }
  }

  function IdRow(r: Rec): (row: seq<Octet>)
    requires r.FromDid? && r.position < 0x100 && r.size < 0x100
    ensures |row| == 4
  {
    BigOctets(r.src, 2) + [r.position, r.size]
  }

  predicate IdRows(recs: seq<Rec>) {
    forall r :: r in recs ==> r.FromDid? && r.src < Range(2) && r.position < 0x100 && r.size < 0x100
  }

  // Define `did` as slices of identifiers.
  function IdRequest(did: nat, recs: seq<Rec>): seq<Octet>
    requires IdRows(recs)
  {
    [0x2C, 0x01] + BigOctets(did, 2)
    + Flatten(seq(|recs|, i requires 0 <= i < |recs| => assert recs[i] in recs; IdRow(recs[i])))
  }

  function MemoryRow(r: Rec, alen: nat, slen: nat): (row: seq<Octet>)
    requires r.FromMemory?
    ensures |row| == alen + slen
  {
    BigOctets(r.addr, alen) + BigOctets(r.size, slen)
  }

  predicate MemoryRows(recs: seq<Rec>, alen: nat, slen: nat) {
    forall r :: r in recs ==> r.FromMemory? && r.addr < Range(alen) && r.size < Range(slen)
  }

  // Define `did` as stretches of memory, with fields of these widths.
  function MemoryRequest(did: nat, recs: seq<Rec>, alen: nat, slen: nat): seq<Octet>
    requires 1 <= alen <= 4 && 1 <= slen <= 4 && MemoryRows(recs, alen, slen)
  {
    [0x2C, 0x02] + BigOctets(did, 2) + [16 * slen + alen]
    + Flatten(seq(|recs|, i requires 0 <= i < |recs| => assert recs[i] in recs; MemoryRow(recs[i], alen, slen)))
  }

  lemma DidNamed(req: seq<Octet>, did: nat)
    requires |req| >= 4 && did < Range(2) && req[2..4] == BigOctets(did, 2)
    ensures Did(req) == did
  {
    BigOctetsRead(did, 2);
    TwoBytes(req, 2);
  }

  // A request lists one thing only.
  lemma ListsOnce(req: seq<Octet>, a: seq<Rec>, b: seq<Rec>)
    requires |req| >= 4 && Lists(req, a) && Lists(req, b)
    ensures a == b
  {
    hide BigEndian, RecordStart, MemoryRecord;
    if req[1] % 0x80 == 1 {
      assert forall i :: 0 <= i < |a| ==> a[i] == b[i];
    } else {
      forall i | 0 <= i < |a|
        ensures a[i] == b[i]
      {
        var alen, slen := req[4] % 16, req[4] / 16;
        assert StandsAt(req, a[i], RecordStart(i, alen + slen), alen, slen);
        assert StandsAt(req, b[i], RecordStart(i, alen + slen), alen, slen);
      }
    }
  }

  lemma IdRowStands(req: seq<Octet>, recs: seq<Rec>, rows: seq<seq<Octet>>, i: nat)
    requires IdRows(recs) && i < |recs| == |rows|
    requires forall k :: 0 <= k < |recs| ==> recs[k] in recs && rows[k] == IdRow(recs[k])
    requires |req| == 4 + |Flatten(rows)| && req[4..] == Flatten(rows)
    ensures |req| == 4 + 4 * |recs|
    ensures recs[i] == FromDid(Pair(req, 4 + 4 * i), req[6 + 4 * i], req[7 + 4 * i])
  {
    hide BigEndian, BigOctets, Range;
    var r := recs[i];
    RowsAt(rows, 4, i);
    var row := IdRow(r);
    assert req[4 + 4 * i..8 + 4 * i] == req[4..][4 * i..4 * i + 4] == row;
    var t := req[4 + 4 * i..8 + 4 * i];
    assert req[4 + 4 * i] == t[0] && req[5 + 4 * i] == t[1] && req[6 + 4 * i] == t[2] && req[7 + 4 * i] == t[3];
    BigOctetsRead(r.src, 2);
    TwoBytes(BigOctets(r.src, 2), 0);
    assert BigOctets(r.src, 2)[0..2] == BigOctets(r.src, 2);
  }

  // A request for up to 255 slices of identifiers lists these, for the identifier it names.
  lemma IdRequestSays(did: nat, recs: seq<Rec>)
    requires did < Range(2) && 0 < |recs| < 0x100 && IdRows(recs)
    ensures var req := IdRequest(did, recs);
            |req| >= 4 && Did(req) == did && Lists(req, recs)
  {
    hide BigEndian, BigOctets, Range, IdRow, Flatten;
    var req := IdRequest(did, recs);
    var rows := seq(|recs|, i requires 0 <= i < |recs| => assert recs[i] in recs; IdRow(recs[i]));
    assert req[2..4] == BigOctets(did, 2) && req[4..] == Flatten(rows);
    DidNamed(req, did);
    forall i | 0 <= i < |recs|
      ensures |req| == 4 + 4 * |recs|
      ensures recs[i] == FromDid(Pair(req, 4 + 4 * i), req[6 + 4 * i], req[7 + 4 * i])
    {
      IdRowStands(req, recs, rows, i);
    }
    assert |req| == 4 + 4 * |recs| by { IdRowStands(req, recs, rows, 0); }
  }

  // The same for stretches of memory, whatever the widths of address and size.
  lemma MemoryRequestSays(did: nat, recs: seq<Rec>, alen: nat, slen: nat)
    requires did < Range(2) && 0 < |recs| < 0x100
    requires 1 <= alen <= 4 && 1 <= slen <= 4 && MemoryRows(recs, alen, slen)
    ensures var req := MemoryRequest(did, recs, alen, slen);
            |req| >= 4 && Did(req) == did && Lists(req, recs)
  {
    hide BigEndian, BigOctets, Range, MemoryRow, Flatten, RecordStart, StandsAt;
    var req := MemoryRequest(did, recs, alen, slen);
    var rows := seq(|recs|, i requires 0 <= i < |recs| => assert recs[i] in recs; MemoryRow(recs[i], alen, slen));
    var width := alen + slen;
    RowsAt(rows, width, 0);
    assert req[2..4] == BigOctets(did, 2) && req[5..] == Flatten(rows);
    assert req[4] % 16 == alen && req[4] / 16 == slen;
    DidNamed(req, did);
    forall i | 0 <= i < |recs|
      ensures StandsAt(req, recs[i], RecordStart(i, width), alen, slen)
    {
      RowStands(req, recs, rows, i, alen, slen);
    }
    Counted(|recs|, width);
    Product(1, |recs|, width);
    assert |req| - 5 == |recs| * width >= width;
  }

  lemma Counted(n: nat, width: nat)
    requires n < 0x100 && width > 0
    ensures n * width % width == 0 && n * width / width % 0x100 == n
  {
    Exact(n, width);
  }

  lemma Exact(n: nat, width: nat)
    requires width > 0
    ensures n * width % width == 0 && n * width / width == n
  {
    var q, r := n * width / width, n * width % width;
    assert n * width == q * width + r;
    if q < n { Product(q + 1, n, width); Product(q, q, width); }
    if q > n { Product(n + 1, q, width); Product(n, n, width); }
  }

  lemma RowStands(req: seq<Octet>, recs: seq<Rec>, rows: seq<seq<Octet>>, i: nat, alen: nat, slen: nat)
    requires 1 <= alen <= 4 && 1 <= slen <= 4 && MemoryRows(recs, alen, slen) && i < |recs| == |rows|
    requires forall k :: 0 <= k < |recs| ==> recs[k] in recs && rows[k] == MemoryRow(recs[k], alen, slen)
    requires |req| == 5 + |Flatten(rows)| && req[5..] == Flatten(rows)
    ensures StandsAt(req, recs[i], RecordStart(i, alen + slen), alen, slen)
  {
    hide BigEndian, BigOctets, Range;
    var width, r := alen + slen, recs[i];
    RowsAt(rows, width, i);
    Product(i, i, width);
    var at := 5 + i * width;
    assert req[at..at + width] == req[5..][i * width..(i + 1) * width] == MemoryRow(r, alen, slen);
    assert req[at..at + alen] == req[at..at + width][..alen] == BigOctets(r.addr, alen);
    assert req[at + alen..at + width] == req[at..at + width][alen..] == BigOctets(r.size, slen);
    BigOctetsRead(r.addr, alen);
    BigOctetsRead(r.size, slen);
  }

  // What comes of a request that lists these records: exactly if they may be defined and there
  // is a slot, the identifier stands for them from then on.
  lemma ListedIsCommitted(t: seq<Slot>, req: seq<Octet>, recs: seq<Rec>, w: World)
    requires TableOk(t) && |req| >= 4 && Lists(req, recs) && DYNAMIC_BASE <= Did(req) <= DYNAMIC_END
    ensures var a := Answered(t, req, w);
            && (a.resp[0] == 0x6C <==>
                  Definable(recs, w) && exists s :: s in t && (s.did == Did(req) || s.did == 0))
            && (a.resp[0] == 0x6C ==> Definition(a.table, Did(req)) == recs)
  {
    hide Lists, Definable, BigEndian, Definition, DefineVerdict, Find;
    NotRemoval(req, recs);
    CommitsExactly(t, req, w);
    forall other | Lists(req, other)
      ensures other == recs
    {
      ListsOnce(req, other, recs);
    }
    if Answered(t, req, w).resp[0] == 0x6C {
      CommitMeans(t, req, w, Did(req));
    }
  }

  lemma NotRemoval(req: seq<Octet>, recs: seq<Rec>)
    requires |req| >= 4 && Lists(req, recs)
    ensures req[1] % 0x80 != 3
  {
  }

  // What is answered: the request's own octets without the suppress bit, or a code for what is
  // wrong with it. 0x13: too short, or its records do not come out even. 0x12: no such
  // sub-function. 0x31: everything else.
  lemma DefineAnswered(t: seq<Slot>, req: seq<Octet>, w: World)
    requires TableOk(t)
    ensures var resp := Answered(t, req, w).resp;
            if |req| < 4 then resp == [0x7F, 0x2C, 0x13]
            else if Did(req) < 0xF200 || Did(req) > 0xF3FF then resp == [0x7F, 0x2C, 0x31]
            else match req[1] % 0x80
              case 1 => resp == if exists recs :: Lists(req, recs) then Outcome(t, req, w) else [0x7F, 0x2C, 0x13]
              case 2 =>
                resp == if |req| < 5 then [0x7F, 0x2C, 0x13]
                        else if !(1 <= req[4] % 16 <= 4 && 1 <= req[4] / 16 <= 4) then [0x7F, 0x2C, 0x31]
                        else if exists recs :: Lists(req, recs) then Outcome(t, req, w) else [0x7F, 0x2C, 0x13]
              case 3 => resp == Outcome(t, req, w)
              case _ => resp == [0x7F, 0x2C, 0x12]
  {
    hide Definable, Acceptable, BigEndian, Lists, Find, SlotFor, ById, ByMemory, Commits;
    if |req| >= 4 {
      TwoBytes(req, 2);
      CommitsExactly(t, req, w);
      Listable(req);
    }
  }

  ghost function Outcome(t: seq<Slot>, req: seq<Octet>, w: World): seq<Octet>
    requires |req| >= 4
  {
    if Commits(t, req, w) then [0x6C, if req[1] < 0x80 then req[1] else req[1] - 0x80, req[2], req[3]]
    else [0x7F, 0x2C, 0x31]
  }

  // Records can be read off a request exactly if its length is one header and a number of rows.
  lemma Listable(req: seq<Octet>)
    requires |req| >= 4
    ensures req[1] % 0x80 == 1 ==>
      ((exists recs :: Lists(req, recs)) <==> |req| >= 8 && (|req| - 4) % 4 == 0)
    ensures req[1] % 0x80 == 2 && |req| >= 5 && 1 <= req[4] % 16 <= 4 && 1 <= req[4] / 16 <= 4 ==>
      var stride := req[4] % 16 + req[4] / 16;
      ((exists recs :: Lists(req, recs)) <==> |req| >= 5 + stride && (|req| - 5) % stride == 0)
  {
    hide BigEndian, ById, ByMemory, CountOf, StandInRow;
    if req[1] % 0x80 == 1 {
      if |req| >= 8 && (|req| - 4) % 4 == 0 {
        var recs := ById(req, CountOf(|req| - 4, 4));
        ByIdLists(req, recs);
        assert Lists(req, recs);
      }
    } else if req[1] % 0x80 == 2 && |req| > 5 && 1 <= req[4] % 16 <= 4 && 1 <= req[4] / 16 <= 4 {
      var alen, slen := req[4] % 16, req[4] / 16;
      Multiples(|req| - 5, alen + slen);
      if (|req| - 5) % (alen + slen) == 0 {
        var recs := ByMemory(req, CountOf(|req| - 5, alen + slen), alen, slen);
        ByMemoryLists(req, recs);
        assert Lists(req, recs);
      }
    }
  }
}
