// Dynamically defined data identifiers, ISO 14229-1:2013 section 10.4: the table behind
// service 0x2C and the assembly of a record (Core/Src/uds_service.c:47-138, 1450-1635).

module DynamicDids {
  import opened Words
  import Flash

  const SLOTS: nat := 4
  const MAX_REC: nat := 3
  const MAX_DATA: nat := 56
  const DYNAMIC_BASE: nat := 0xF200
  const DYNAMIC_END: nat := 0xF3FF

  const SRAM_BASE: nat := 0x20000000
  const SRAM_END: nat := 0x20008000

  const SID: Octet := 0x2C
  const NRC_SUBFUNCTION: Octet := 0x12
  const NRC_LENGTH: Octet := 0x13
  const NRC_RANGE: Octet := 0x31

  // The readable identifiers with their contents of the moment, and the memory.
  datatype World = World(sources: map<nat, seq<Octet>>, memory: nat -> Octet)

  // dyn_rec_t
  datatype Rec = FromDid(src: nat, position: nat, size: nat) | FromMemory(addr: nat, size: nat)

  // dyn_slot_t; an identifier of 0 marks an empty slot.
  datatype Slot = Slot(did: nat, recs: seq<Rec>)

  const EMPTY := Slot(0, [])

  // ----- One record -----

  // The slice lies within its source.
  predicate Available(r: Rec, w: World) {
    r.FromDid? ==> r.src in w.sources && r.position > 0 && r.position - 1 + r.size <= |w.sources[r.src]|
  }

  function Slice(r: Rec, w: World): (s: seq<Octet>)
    requires Available(r, w)
    ensures |s| == r.size
  {
    match r
    case FromDid(src, position, size) => w.sources[src][position - 1..position - 1 + size]
    case FromMemory(addr, size) => seq(size, i requires 0 <= i < size => w.memory(addr + i))
  }

  predicate InRegion(addr: nat, size: nat) {
    || (Flash.FLASH_BASE <= addr < Flash.FLASH_END && size <= Flash.FLASH_END - addr)
    || (SRAM_BASE <= addr < SRAM_END && size <= SRAM_END - addr)
  }

  // What a definition checks of each record.
  predicate RecordOk(r: Rec, w: World) {
    && r.size > 0
    && match r
       case FromDid(_, _, _) => Available(r, w)
       case FromMemory(addr, size) => size <= MAX_DATA && InRegion(addr, size)
  }

  function Total(recs: seq<Rec>): nat {
    if recs == [] then 0 else Total(recs[..|recs| - 1]) + recs[|recs| - 1].size
  }

  predicate AllAvailable(recs: seq<Rec>, w: World) {
    forall r :: r in recs ==> Available(r, w)
  }

  // The record's slices, one behind the other.
  function Concat(recs: seq<Rec>, w: World): (s: seq<Octet>)
    requires AllAvailable(recs, w)
    ensures |s| == Total(recs)
  {
    if recs == [] then [] else Concat(recs[..|recs| - 1], w) + Slice(recs[|recs| - 1], w)
  }

  // The byte a record names as its k-th: positions in an identifier count from 1.
  function Source(r: Rec, w: World, k: nat): Octet
    requires Available(r, w) && k < r.size
  {
    match r
    case FromDid(src, position, _) => w.sources[src][position + k - 1]
    case FromMemory(addr, _) => w.memory(addr + k)
  }

  // Every byte of an assembled record is where and what its definition says.
  lemma {:induction false} AssembledAt(recs: seq<Rec>, w: World, i: nat, k: nat)
    requires AllAvailable(recs, w) && i < |recs| && k < recs[i].size
    ensures Total(recs[..i]) + k < |Concat(recs, w)|
    ensures Concat(recs, w)[Total(recs[..i]) + k] == Source(recs[i], w, k)
    decreases |recs|
  {
    hide Available, Slice, Source;
    var rest, last := recs[..|recs| - 1], recs[|recs| - 1];
    assert AllAvailable(rest, w) && last in recs;
    assert Concat(recs, w) == Concat(rest, w) + Slice(last, w);
    if i < |rest| {
      AssembledAt(rest, w, i, k);
      assert rest[..i] == recs[..i];
    } else {
      assert recs[..i] == rest;
      SliceAt(last, w, k);
    }
  }

  lemma SliceAt(r: Rec, w: World, k: nat)
    requires Available(r, w) && k < r.size
    ensures Slice(r, w)[k] == Source(r, w, k)
  {
  }

  // What dyn_assemble comes to: all the slices, or nothing.
  function Assembled(recs: seq<Rec>, w: World): seq<Octet> {
    if AllAvailable(recs, w) && Total(recs) <= MAX_DATA then Concat(recs, w) else []
  }

  lemma {:induction false} TotalGrows(recs: seq<Rec>, k: nat)
    requires k <= |recs|
    ensures Total(recs[..k]) <= Total(recs)
    decreases |recs|
  {
    if k == |recs| {
      assert recs[..k] == recs;
    } else {
      assert recs[..|recs| - 1][..k] == recs[..k];
      TotalGrows(recs[..|recs| - 1], k);
    }
  }

  // dyn_assemble
  method Assemble(recs: seq<Rec>, w: World) returns (out: seq<Octet>)
    ensures out == Assembled(recs, w)
  {
    hide Slice, Available;
    out := [];
    for i := 0 to |recs|
      invariant AllAvailable(recs[..i], w) && Total(recs[..i]) <= MAX_DATA
      invariant out == Concat(recs[..i], w)
    {
      var r := recs[i];
      assert recs[..i + 1][..i] == recs[..i];
      TotalGrows(recs, i + 1);
      if |out| + r.size > MAX_DATA {
        return [];
      }
      if !Available(r, w) {
        assert r in recs;
        return [];
      }
      out := out + Slice(r, w);
    }
    assert recs[..|recs|] == recs;
  }

  // The readable identifiers keep their lengths: no VIN with a NUL in it was written.
  ghost predicate SameLengths(w: World, x: World) {
    w.sources.Keys == x.sources.Keys && forall d :: d in w.sources ==> |w.sources[d]| == |x.sources[d]|
  }

  // A definition accepted in one world is assembled in any later one of the same lengths, to
  // its full size.
  lemma StaysAssemblable(recs: seq<Rec>, w: World, x: World)
    requires forall r :: r in recs ==> RecordOk(r, w)
    requires 0 < Total(recs) <= MAX_DATA && SameLengths(w, x)
    ensures AllAvailable(recs, x) && Assembled(recs, x) == Concat(recs, x) && 0 < |Assembled(recs, x)| <= MAX_DATA
  {
    forall r | r in recs
      ensures Available(r, x)
    {
      assert RecordOk(r, w);
    }
  }

  // ----- What a 0x2C request asks for -----

  datatype Verdict = Refuse(code: Octet) | Define(did: nat, recs: seq<Rec>) | Remove(did: nat)

  function ById(req: seq<Octet>, n: nat): (recs: seq<Rec>)
    requires 4 + 4 * n <= |req|
    ensures |recs| == n
  {
    seq(n, i requires 0 <= i < n =>
      FromDid(BigEndian(req[4 + 4 * i..6 + 4 * i]), req[6 + 4 * i], req[7 + 4 * i]))
  }

  function MemoryRecord(req: seq<Octet>, at: nat, alen: nat, slen: nat): Rec
    requires at + alen + slen <= |req|
  {
    FromMemory(BigEndian(req[at..at + alen]), BigEndian(req[at + alen..at + alen + slen]))
  }

  // Where the i-th record of a definition by memory starts.
  function RecordStart(i: nat, stride: nat): nat {
    5 + i * stride
  }

  function ByMemory(req: seq<Octet>, n: nat, alen: nat, slen: nat): (recs: seq<Rec>)
    requires n == 0 || RecordStart(n, alen + slen) <= |req|
    ensures |recs| == n
    decreases n
  {
    if n == 0 then []
    else
      StartFits(n - 1, n, alen + slen);
      ByMemory(req, n - 1, alen, slen) + [MemoryRecord(req, RecordStart(n - 1, alen + slen), alen, slen)]
  }

  lemma {:induction false} StartFits(i: nat, n: nat, stride: nat)
    requires i < n
    ensures RecordStart(i, stride) + stride <= RecordStart(n, stride)
    decreases n
  {
    assert RecordStart(n - 1, stride) + stride == RecordStart(n, stride);
    if i < n - 1 {
      StartFits(i, n - 1, stride);
    }
  }

  predicate Acceptable(recs: seq<Rec>, w: World) {
    0 < |recs| <= MAX_REC && (forall r :: r in recs ==> RecordOk(r, w)) && Total(recs) <= MAX_DATA
  }

  function CountOf(bytes: nat, stride: nat): (n: nat)
    requires stride > 0
    ensures RecordStart(n, stride) <= bytes + 5
  {
    var q := bytes / stride;
    QuotientFits(bytes, stride);
    if q < 0x100 then q else (SmallerFits(q % 0x100, q, stride); q % 0x100)
  }

  lemma QuotientFits(bytes: nat, stride: nat)
    requires stride > 0
    ensures bytes / stride * stride <= bytes
  {
  }

  lemma SmallerFits(a: nat, b: nat, stride: nat)
    requires a <= b
    ensures a * stride <= b * stride
  {
  }

  function IdVerdict(req: seq<Octet>, did: nat, w: World): Verdict
    requires |req| >= 4
  {
    if |req| < 8 || (|req| - 4) % 4 != 0 then Refuse(NRC_LENGTH)
    else
      var recs := ById(req, CountOf(|req| - 4, 4));
      if Acceptable(recs, w) then Define(did, recs) else Refuse(NRC_RANGE)
  }

  function MemoryVerdict(req: seq<Octet>, did: nat, w: World): Verdict
    requires |req| >= 4
  {
    if |req| < 5 then Refuse(NRC_LENGTH)
    else
      var alen, slen := req[4] % 16, req[4] / 16;
      if alen == 0 || slen == 0 || alen > 4 || slen > 4 then Refuse(NRC_RANGE)
      else if |req| < 5 + alen + slen || (|req| - 5) % (alen + slen) != 0 then Refuse(NRC_LENGTH)
      else
        var recs := ByMemory(req, CountOf(|req| - 5, alen + slen), alen, slen);
        if Acceptable(recs, w) then Define(did, recs) else Refuse(NRC_RANGE)
  }

  function DefineVerdict(req: seq<Octet>, w: World): Verdict {
    if |req| < 4 then Refuse(NRC_LENGTH)
    else
      var did := BigEndian(req[2..4]);
      if did < DYNAMIC_BASE || did > DYNAMIC_END then Refuse(NRC_RANGE)
      else if req[1] % 0x80 == 1 then IdVerdict(req, did, w)
      else if req[1] % 0x80 == 2 then MemoryVerdict(req, did, w)
      else if req[1] % 0x80 == 3 then Remove(did)
      else Refuse(NRC_SUBFUNCTION)
  }

  // ----- The table -----

  // dyn_find: the first slot of this identifier, 0 for the first empty one.
  function Find(t: seq<Slot>, did: nat): (k: int)
    ensures -1 <= k < |t|
    ensures k >= 0 ==> t[k].did == did && forall i :: 0 <= i < k ==> t[i].did != did
    ensures k < 0 ==> forall i :: 0 <= i < |t| ==> t[i].did != did
  {
    if t == [] then -1
    else if t[0].did == did then 0
    else var k := Find(t[1..], did); if k < 0 then -1 else k + 1
  }

  // The slot a definition goes to: its own, else the first empty one, else none.
  function SlotFor(t: seq<Slot>, did: nat): (k: int)
    ensures -1 <= k < |t|
  {
    if Find(t, did) >= 0 then Find(t, did) else Find(t, 0)
  }

  predicate SlotOk(s: Slot) {
    s.did == 0 ||
    (DYNAMIC_BASE <= s.did <= DYNAMIC_END && 0 < |s.recs| <= MAX_REC && 0 < Total(s.recs) <= MAX_DATA)
  }

  ghost predicate TableOk(t: seq<Slot>) {
    && |t| == SLOTS
    && (forall i :: 0 <= i < SLOTS ==> SlotOk(t[i]))
    && (forall i, j :: 0 <= i < j < SLOTS && t[i].did != 0 ==> t[i].did != t[j].did)
  }

  datatype Answer = Answer(table: seq<Slot>, resp: seq<Octet>)

  function Positive(req: seq<Octet>): seq<Octet>
    requires |req| >= 4
  {
    [0x6C, req[1] % 0x80, req[2], req[3]]
  }

  function Negative(code: Octet): seq<Octet> {
    [0x7F, SID, code]
  }

  function Answered(t: seq<Slot>, req: seq<Octet>, w: World): Answer {
    match DefineVerdict(req, w)
    case Refuse(code) => Answer(t, Negative(code))
    case Define(did, recs) =>
      var k := SlotFor(t, did);
      if k < 0 then Answer(t, Negative(NRC_RANGE)) else Answer(t[k := Slot(did, recs)], Positive(req))
    case Remove(did) =>
      var k := Find(t, did);
      if k < 0 then Answer(t, Negative(NRC_RANGE)) else Answer(t[k := EMPTY], Positive(req))
  }

  lemma AcceptableTotal(recs: seq<Rec>, w: World)
    requires Acceptable(recs, w)
    ensures 0 < Total(recs) <= MAX_DATA
  {
    var last := recs[|recs| - 1];
    assert last in recs && RecordOk(last, w);
  }

  lemma DefineIsOk(req: seq<Octet>, w: World)
    requires DefineVerdict(req, w).Define?
    ensures var v := DefineVerdict(req, w);
            DYNAMIC_BASE <= v.did <= DYNAMIC_END && Acceptable(v.recs, w) && SlotOk(Slot(v.did, v.recs))
  {
    hide Acceptable, RecordOk;
    AcceptableTotal(DefineVerdict(req, w).recs, w);
    AcceptableCount(DefineVerdict(req, w).recs, w);
  }

  lemma AcceptableCount(recs: seq<Rec>, w: World)
    requires Acceptable(recs, w)
    ensures 0 < |recs| <= MAX_REC
  {
  }

  // Whatever is asked: the identifiers in the table stay distinct and its slots well formed.
  lemma TableStaysOk(t: seq<Slot>, req: seq<Octet>, w: World)
    requires TableOk(t)
    ensures TableOk(Answered(t, req, w).table)
  {
    hide Acceptable, Total;
    if DefineVerdict(req, w).Define? {
      DefineIsOk(req, w);
    }
  }

  // ----- What a request must be like -----

  // The identifier a request is about.
  function Did(req: seq<Octet>): nat
    requires |req| >= 4
  {
    Pair(req, 2)
  }

  function Pair(s: seq<Octet>, i: nat): nat
    requires i + 2 <= |s|
  {
    0x100 * (s[i] as int) + s[i + 1]
  }

  // The request lists these records as source identifier, position and size.
  ghost predicate ListsById(req: seq<Octet>, recs: seq<Rec>) {
    && |req| >= 8 && |req| % 4 == 0 && |recs| == (|req| - 4) / 4 % 0x100
    && forall i {:trigger recs[i]} :: 0 <= i < |recs| ==>
         recs[i] == FromDid(Pair(req, 4 + 4 * i), req[6 + 4 * i], req[7 + 4 * i])
  }

  // One behind the other from offset 5 on.
  ghost predicate StandInRow(req: seq<Octet>, recs: seq<Rec>, alen: nat, slen: nat) {
    forall i :: 0 <= i < |recs| ==> StandsAt(req, recs[i], RecordStart(i, alen + slen), alen, slen)
  }

  predicate StandsAt(req: seq<Octet>, r: Rec, at: nat, alen: nat, slen: nat) {
    at + alen + slen <= |req| && r == MemoryRecord(req, at, alen, slen)
  }

  // The request lists these records as address and size, of the widths it names.
  ghost predicate ListsByMemory(req: seq<Octet>, recs: seq<Rec>) {
    && |req| > 5
    && var alen, slen := req[4] % 16, req[4] / 16;
    && 1 <= alen <= 4 && 1 <= slen <= 4
    && (|req| - 5) % (alen + slen) == 0 && |recs| == (|req| - 5) / (alen + slen) % 0x100
    && StandInRow(req, recs, alen, slen)
  }

  ghost predicate Lists(req: seq<Octet>, recs: seq<Rec>)
    requires |req| >= 4
  {
    || (req[1] % 0x80 == 1 && ListsById(req, recs))
    || (req[1] % 0x80 == 2 && ListsByMemory(req, recs))
  }

  // Records that may be defined: one to three, each within its source, 1..56 bytes in all.
  predicate Definable(recs: seq<Rec>, w: World) {
    0 < |recs| <= MAX_REC && (forall r :: r in recs ==> RecordOk(r, w)) && 0 < Total(recs) <= MAX_DATA
  }

  // When a request is to be carried out.
  ghost predicate Commits(t: seq<Slot>, req: seq<Octet>, w: World) {
    && |req| >= 4 && DYNAMIC_BASE <= Did(req) <= DYNAMIC_END
    && if req[1] % 0x80 == 3 then exists s :: s in t && s.did == Did(req)
       else && (exists recs :: Lists(req, recs) && Definable(recs, w))
            && (exists s :: s in t && (s.did == Did(req) || s.did == 0))
  }

  lemma TwoBytes(s: seq<Octet>, i: nat)
    requires i + 2 <= |s|
    ensures BigEndian(s[i..i + 2]) == Pair(s, i)
  {
    assert s[i..i + 2] == [s[i], s[i + 1]];
    assert [s[i], s[i + 1]][..1] == [s[i]] && [s[i]][..0] == [];
    assert BigEndian([s[i]]) == s[i];
  }

  lemma ByIdLists(req: seq<Octet>, recs: seq<Rec>)
    requires |req| >= 8 && (|req| - 4) % 4 == 0
    ensures ListsById(req, recs) <==> recs == ById(req, CountOf(|req| - 4, 4))
  {
    hide BigEndian;
    var all := ById(req, CountOf(|req| - 4, 4));
    forall i | 0 <= i < |all|
      ensures all[i] == FromDid(Pair(req, 4 + 4 * i), req[6 + 4 * i], req[7 + 4 * i])
    {
      TwoBytes(req, 4 + 4 * i);
    }
  }

  lemma RecordsListed(req: seq<Octet>, recs: seq<Rec>, alen: nat, slen: nat)
    requires |recs| == 0 || RecordStart(|recs|, alen + slen) <= |req|
    ensures StandInRow(req, recs, alen, slen) <==> recs == ByMemory(req, |recs|, alen, slen)
  {
    hide RecordStart, MemoryRecord, ByMemory;
    var all := ByMemory(req, |recs|, alen, slen);
    forall i | 0 <= i < |recs|
      ensures StandsAt(req, all[i], RecordStart(i, alen + slen), alen, slen)
    {
      MemoryRecordAt(req, |recs|, alen, slen, i);
    }
    if StandInRow(req, recs, alen, slen) {
      forall i | 0 <= i < |recs|
        ensures recs[i] == all[i]
      {
        assert StandsAt(req, all[i], RecordStart(i, alen + slen), alen, slen);
      }
    }
  }

  lemma CountIs(bytes: nat, stride: nat)
    requires stride > 0
    ensures CountOf(bytes, stride) == bytes / stride % 0x100
  {
  }

  lemma ByMemoryLists(req: seq<Octet>, recs: seq<Rec>)
    requires |req| > 5 && 1 <= req[4] % 16 <= 4 && 1 <= req[4] / 16 <= 4
    requires (|req| - 5) % (req[4] % 16 + req[4] / 16) == 0
    ensures var alen, slen := req[4] % 16, req[4] / 16;
            ListsByMemory(req, recs) <==> recs == ByMemory(req, CountOf(|req| - 5, alen + slen), alen, slen)
  {
    hide RecordStart, ByMemory, CountOf, StandInRow;
    var alen, slen := req[4] % 16, req[4] / 16;
    CountIs(|req| - 5, alen + slen);
    if |recs| == CountOf(|req| - 5, alen + slen) {
      RecordsListed(req, recs, alen, slen);
    }
  }

  lemma AcceptableIsDefinable(recs: seq<Rec>, w: World)
    ensures Acceptable(recs, w) <==> Definable(recs, w)
  {
    if Acceptable(recs, w) {
      AcceptableTotal(recs, w);
    }
  }

  // The verdict is what the request lists, if that may be defined.
  lemma DefinesExactly(req: seq<Octet>, w: World, recs: seq<Rec>)
    requires |req| >= 4
    ensures DefineVerdict(req, w) == Define(Did(req), recs)
            <==> DYNAMIC_BASE <= Did(req) <= DYNAMIC_END && Lists(req, recs) && Definable(recs, w)
  {
    hide Acceptable, Definable, BigEndian, ListsById, ListsByMemory, ById, ByMemory;
    TwoBytes(req, 2);
    AcceptableIsDefinable(recs, w);
    if req[1] % 0x80 == 1 {
      ListedById(req, Did(req), w, recs);
    } else if req[1] % 0x80 == 2 {
      ListedByMemory(req, Did(req), w, recs);
    }
  }

  lemma ListedById(req: seq<Octet>, did: nat, w: World, recs: seq<Rec>)
    requires |req| >= 4
    ensures IdVerdict(req, did, w) == Define(did, recs) <==> ListsById(req, recs) && Acceptable(recs, w)
  {
    hide Acceptable, ById;
    if |req| >= 8 && (|req| - 4) % 4 == 0 {
      ByIdLists(req, recs);
    }
  }

  lemma ListedByMemory(req: seq<Octet>, did: nat, w: World, recs: seq<Rec>)
    requires |req| >= 4
    ensures MemoryVerdict(req, did, w) == Define(did, recs) <==> ListsByMemory(req, recs) && Acceptable(recs, w)
  {
    hide Acceptable, ByMemory, RecordStart, BigEndian;
    if |req| > 5 && 1 <= req[4] % 16 <= 4 && 1 <= req[4] / 16 <= 4 {
      var stride := req[4] % 16 + req[4] / 16;
      Multiples(|req| - 5, stride);
      if (|req| - 5) % stride == 0 {
        ByMemoryLists(req, recs);
      }
    }
  }

  lemma Multiples(n: nat, d: nat)
    requires n > 0 && d > 0
    ensures n % d == 0 ==> n >= d
  {
  }

  // Whether a request is carried out, told from the request, the world and the table: exactly
  // if the identifier is in range and either the listed records may be defined and a slot is
  // there, or the identifier to be removed is there. A refused one leaves the table alone.
  lemma CommitsExactly(t: seq<Slot>, req: seq<Octet>, w: World)
    requires TableOk(t)
    ensures var a := Answered(t, req, w);
            && (a.resp[0] == 0x6C || a.resp[0] == 0x7F)
            && (a.resp[0] == 0x6C <==> Commits(t, req, w))
            && (a.resp[0] == 0x7F ==> a.table == t)
  {
    hide Definable, BigEndian, Lists, IdVerdict, MemoryVerdict;
    if |req| >= 4 {
      TwoBytes(req, 2);
      var v := DefineVerdict(req, w);
      if v.Define? {
        VerdictNames(req, w);
        DefinesExactly(req, w, v.recs);
      }
      forall recs | Lists(req, recs) && Definable(recs, w) && DYNAMIC_BASE <= Did(req) <= DYNAMIC_END
        ensures v == Define(Did(req), recs)
      {
        DefinesExactly(req, w, recs);
      }
      SlotIsThere(t, Did(req));
      RemoveExactly(req, w);
    }
  }

  lemma VerdictNames(req: seq<Octet>, w: World)
    requires |req| >= 4
    ensures DefineVerdict(req, w).Define? ==> DefineVerdict(req, w).did == Did(req) && req[1] % 0x80 != 3
  {
    hide BigEndian, Acceptable;
    TwoBytes(req, 2);
  }

  lemma RemoveExactly(req: seq<Octet>, w: World)
    requires |req| >= 4
    ensures DefineVerdict(req, w).Remove? <==> DYNAMIC_BASE <= Did(req) <= DYNAMIC_END && req[1] % 0x80 == 3
    ensures DefineVerdict(req, w).Remove? ==> DefineVerdict(req, w).did == Did(req)
  {
    hide BigEndian, Acceptable;
    TwoBytes(req, 2);
  }

  lemma SlotIsThere(t: seq<Slot>, did: nat)
    ensures Find(t, did) >= 0 <==> exists s :: s in t && s.did == did
    ensures SlotFor(t, did) >= 0 <==> exists s :: s in t && (s.did == did || s.did == 0)
  {
    hide Find;
  }

  lemma FindIs(t: seq<Slot>, did: nat, k: nat)
    requires k < |t| && t[k].did == did && forall i :: 0 <= i < |t| && i != k ==> t[i].did != did
    ensures Find(t, did) == k
  {
  }

  lemma FindNone(t: seq<Slot>, did: nat)
    requires forall i :: 0 <= i < |t| ==> t[i].did != did
    ensures Find(t, did) == -1
  {
  }

  // Replacing one slot changes the definitions of what it held and what it now holds only.
  lemma OneSlotChanged(t: seq<Slot>, k: nat, s: Slot, did: nat)
    requires TableOk(t) && k < SLOTS && did != 0
    requires s.did != 0 ==> forall i :: 0 <= i < SLOTS && i != k ==> t[i].did != s.did
    ensures Definition(t[k := s], did) ==
            if s.did == did then s.recs else if t[k].did == did then [] else Definition(t, did)
  {
    hide SlotOk, Find;
    var u := t[k := s];
    var j := Find(t, did);
    if s.did == did {
      FindIs(u, did, k);
    } else if t[k].did == did {
      FindNone(u, did);
    } else if j >= 0 {
      FindIs(u, did, j);
    } else {
      FindNone(u, did);
    }
  }

  // A positive answer means the records listed, or none, for the identifier named, and every
  // other definition as before.
  lemma CommitMeans(t: seq<Slot>, req: seq<Octet>, w: World, did: nat)
    requires TableOk(t) && did != 0 && Answered(t, req, w).resp[0] == 0x6C
    ensures var u := Answered(t, req, w).table;
            && |req| >= 4
            && (did != Did(req) ==> Definition(u, did) == Definition(t, did))
            && (did == Did(req) ==>
                  if req[1] % 0x80 == 3 then Find(u, did) < 0 && Definition(u, did) == []
                  else Lists(req, Definition(u, did)) && Definable(Definition(u, did), w))
  {
    hide DefineVerdict, Find, SlotOk, Acceptable, Lists, Definable;
    var v := DefineVerdict(req, w);
    CommitsExactly(t, req, w);
    VerdictNames(req, w);
    RemoveExactly(req, w);
    if v.Define? {
      DefineIsOk(req, w);
      DefinesExactly(req, w, v.recs);
      OthersDiffer(t, v.did);
      OneSlotChanged(t, SlotFor(t, v.did), Slot(v.did, v.recs), did);
    } else {
      OneSlotChanged(t, Find(t, v.did), EMPTY, did);
      Emptied(t, v.did);
    }
  }

  lemma Emptied(t: seq<Slot>, did: nat)
    requires TableOk(t) && did != 0 && Find(t, did) >= 0
    ensures Find(t[Find(t, did) := EMPTY], did) < 0
  {
    hide SlotOk, Find;
  }

  lemma OthersDiffer(t: seq<Slot>, did: nat)
    requires TableOk(t) && did != 0 && SlotFor(t, did) >= 0
    ensures var k := SlotFor(t, did);
            && (t[k].did == did || t[k].did == 0)
            && forall i :: 0 <= i < SLOTS && i != k ==> t[i].did != did
  {
    hide SlotOk, Find;
  }

  // What is defined for an identifier, if anything.
  function Definition(t: seq<Slot>, did: nat): seq<Rec> {
    if Find(t, did) < 0 then [] else t[Find(t, did)].recs
  }

  // ----- The service in place -----

  class DidTable {
    const table: array<Slot>

    ghost predicate Valid()
      reads table
    {
      table.Length == SLOTS && TableOk(table[..])
    }

    constructor ()
      ensures Valid() && fresh(table) && forall i :: 0 <= i < SLOTS ==> table[i] == EMPTY
    {
      table := new Slot[SLOTS](_ => EMPTY);
    }

    // dyn_find
    method FindSlot(did: nat) returns (k: int)
      requires Valid()
      ensures k == Find(table[..], did)
    {
      for i := 0 to SLOTS
        invariant forall j :: 0 <= j < i ==> table[j].did != did
      {
        if table[i].did == did {
          FirstIs(table[..], did, i);
          return i;
        }
      }
      FindNone(table[..], did);
      return -1;
    }

    // handle_dynamic_define_did
    method Handle(req: seq<Octet>, w: World) returns (resp: seq<Octet>)
      requires Valid()
      modifies table
      ensures Valid()
      ensures Answer(table[..], resp) == Answered(old(table[..]), req, w)
      ensures resp[0] == 0x6C <==> Commits(old(table[..]), req, w)
      ensures resp[0] == 0x6C || (resp[0] == 0x7F && table[..] == old(table[..]))
    {
      hide Acceptable, SlotOk, Find, Commits;
      TableStaysOk(table[..], req, w);
      CommitsExactly(table[..], req, w);
      var v := ParseDefine(req, w);
      match v {
        case Refuse(code) => resp := Negative(code);
        case Define(did, recs) =>
          var k := FindSlot(did);
          if k < 0 {
            k := FindSlot(0);
          }
          if k < 0 {
            resp := Negative(NRC_RANGE);
          } else {
            table[k] := Slot(did, recs);
            resp := Positive(req);
          }
        case Remove(did) =>
          var k := FindSlot(did);
          if k < 0 {
            resp := Negative(NRC_RANGE);
          } else {
            table[k] := EMPTY;
            resp := Positive(req);
          }
      }
    }
  }

  lemma {:induction false} FirstIs(t: seq<Slot>, did: nat, k: nat)
    requires k < |t| && t[k].did == did && forall i :: 0 <= i < k ==> t[i].did != did
    ensures Find(t, did) == k
  {
    if k > 0 {
      FirstIs(t[1..], did, k - 1);
    }
  }

  // The validation into a scratch slot. A record that fails its checks ends the loop and
  // leaves a size of 0 at the last place, which is looked at afterwards.
  method ParseDefine(req: seq<Octet>, w: World) returns (v: Verdict)
    ensures v == DefineVerdict(req, w)
  {
    if |req| < 4 {
      return Refuse(NRC_LENGTH);
    }
    var did := ReadBigEndian(req, 2, 2);
    if did < DYNAMIC_BASE || did > DYNAMIC_END {
      return Refuse(NRC_RANGE);
    }
    var sub := req[1] % 0x80;
    if sub == 1 {
      v := ParseById(req, did, w);
    } else if sub == 2 {
      v := ParseByMemory(req, did, w);
    } else if sub == 3 {
      v := Remove(did);
    } else {
      v := Refuse(NRC_SUBFUNCTION);
    }
  }

  // How far the loop got: `recs` is what stands in the scratch slot, zeros behind.
  ghost predicate Scanned(all: seq<Rec>, i: nat, recs: seq<Rec>, total: nat, w: World)
    requires i <= |all|
  {
    recs == all[..i] && total == Total(recs) && forall r :: r in recs ==> RecordOk(r, w)
  }

  // The three tests behind the loop accept exactly if the loop went through.
  lemma ScanDecides(all: seq<Rec>, i: nat, recs: seq<Rec>, total: nat, w: World)
    requires 0 < |all| <= MAX_REC && i <= |all| && Scanned(all, i, recs, total, w)
    requires i < |all| ==> !RecordOk(all[i], w)
    ensures Acceptable(all, w) <==> !(total == 0 || total > MAX_DATA || i < |all|)
  {
    hide RecordOk;
    if i < |all| {
      assert all[i] in all;
    } else {
      assert recs == all;
      if Acceptable(all, w) {
        AcceptableTotal(all, w);
      }
    }
  }

  lemma ScanComplete(all: seq<Rec>, i: nat, recs: seq<Rec>, total: nat, w: World)
    requires i <= |all| && Scanned(all, i, recs, total, w)
    ensures i == |all| ==> recs == all
  {
  }

  lemma ScanOn(all: seq<Rec>, i: nat, recs: seq<Rec>, total: nat, w: World)
    requires i < |all| && Scanned(all, i, recs, total, w) && RecordOk(all[i], w)
    ensures Scanned(all, i + 1, recs + [all[i]], total + all[i].size, w)
  {
    hide RecordOk;
    assert (recs + [all[i]])[..i] == recs;
    assert all[..i + 1] == recs + [all[i]];
  }

  method ParseById(req: seq<Octet>, did: nat, w: World) returns (v: Verdict)
    requires |req| >= 4
    ensures v == IdVerdict(req, did, w)
  {
    hide Acceptable, RecordOk, Total, RecordStart, Scanned;
    if |req| < 8 || (|req| - 4) % 4 != 0 {
      return Refuse(NRC_LENGTH);
    }
    var n := CountOf(|req| - 4, 4);
    ghost var all := ById(req, n);
    if n == 0 || n > MAX_REC {
      CountDecides(all, w);
      return Refuse(NRC_RANGE);
    }
    var recs: seq<Rec>, total: nat, i: nat := [], 0, 0;
    ScanStarts(all, w);
    while i < n
      invariant 0 <= i <= n && Scanned(all, i, recs, total, w) && |recs| == i
    {
      var src := ReadBigEndian(req, 4 + 4 * i, 2);
      var r := FromDid(src, req[6 + 4 * i], req[7 + 4 * i]);
      assert r == all[i];
      if !RecordOk(r, w) {
        break;
      }
      ScanOn(all, i, recs, total, w);
      recs, total := recs + [r], total + r.size;
      i := i + 1;
    }
    ScanDecides(all, i, recs, total, w);
    ScanComplete(all, i, recs, total, w);
    if total == 0 || total > MAX_DATA || i < n {
      return Refuse(NRC_RANGE);
    }
    return Define(did, recs);
  }

  lemma ScanStarts(all: seq<Rec>, w: World)
    ensures Scanned(all, 0, [], 0, w)
  {
  }

  lemma CountDecides(all: seq<Rec>, w: World)
    requires |all| == 0 || |all| > MAX_REC
    ensures !Acceptable(all, w)
  {
  }

  lemma {:induction false} MemoryRecordAt(req: seq<Octet>, n: nat, alen: nat, slen: nat, i: nat)
    requires RecordStart(n, alen + slen) <= |req| && i < n
    ensures RecordStart(i, alen + slen) + alen + slen <= |req|
    ensures ByMemory(req, n, alen, slen)[i] == MemoryRecord(req, RecordStart(i, alen + slen), alen, slen)
    decreases n
  {
    hide RecordStart, MemoryRecord;
    StartFits(i, n, alen + slen);
    StartFits(n - 1, n, alen + slen);
    if i < n - 1 {
      MemoryRecordAt(req, n - 1, alen, slen, i);
    }
  }

  method ParseByMemory(req: seq<Octet>, did: nat, w: World) returns (v: Verdict)
    requires |req| >= 4
    ensures v == MemoryVerdict(req, did, w)
  {
    hide Acceptable, RecordOk, Total, ByMemory, RecordStart, Scanned, CountOf, BigEndian;
    if |req| < 5 {
      return Refuse(NRC_LENGTH);
    }
    var alen, slen := req[4] % 16, req[4] / 16;
    if alen == 0 || slen == 0 || alen > 4 || slen > 4 {
      return Refuse(NRC_RANGE);
    }
    var stride := alen + slen;
    if |req| < 5 + stride || (|req| - 5) % stride != 0 {
      return Refuse(NRC_LENGTH);
    }
    var n := CountOf(|req| - 5, stride);
    ghost var all := ByMemory(req, n, alen, slen);
    if n == 0 || n > MAX_REC {
      CountDecides(all, w);
      return Refuse(NRC_RANGE);
    }
    var recs: seq<Rec>, total: nat, i: nat := [], 0, 0;
    ScanStarts(all, w);
    while i < n
      invariant 0 <= i <= n && Scanned(all, i, recs, total, w) && |recs| == i
    {
      MemoryRecordAt(req, n, alen, slen, i);
      var addr := ReadBigEndian(req, RecordStart(i, stride), alen);
      var size := ReadBigEndian(req, RecordStart(i, stride) + alen, slen);
      var r := FromMemory(addr, size);
      assert r == all[i];
      if !RecordOk(r, w) {
        break;
      }
      ScanOn(all, i, recs, total, w);
      recs, total := recs + [r], total + r.size;
      i := i + 1;
    }
    ScanDecides(all, i, recs, total, w);
    ScanComplete(all, i, recs, total, w);
    if total == 0 || total > MAX_DATA || i < n {
      return Refuse(NRC_RANGE);
    }
    return Define(did, recs);
  }
}
