// The flash services of the bootloader's UDS server (Core/Src/bl_uds.c), ISO 14229-1:2013
// section 14: RequestDownload 0x34, TransferData 0x36, RequestTransferExit 0x37 and the
// CheckMemory routine of RoutineControl 0x31.

module FlashServer {
  import opened Words
  import opened Crc32
  import opened Flash
  import opened BootGate

  const SID_DOWNLOAD: Octet := 0x34
  const SID_TRANSFER: Octet := 0x36
  const SID_EXIT: Octet := 0x37
  const SID_ROUTINE: Octet := 0x31

  const NRC_SUBFUNCTION: Octet := 0x12
  const NRC_LENGTH: Octet := 0x13
  const NRC_CONDITIONS: Octet := 0x22
  const NRC_RANGE: Octet := 0x31
  const NRC_DENIED: Octet := 0x33
  const NRC_SUSPENDED: Octet := 0x71
  const NRC_PROGRAMMING: Octet := 0x72
  const NRC_SEQUENCE: Octet := 0x73
  const NRC_PENDING: Octet := 0x78
  const NRC_SESSION: Octet := 0x7F

  // ----- State -----

  // The s_xfer_* statics and s_saved_rollback: RAM, lost by every reset.
  datatype Xfer = Xfer(active: bool, closed: bool, size: nat, written: nat, blockSeq: nat, saved: nat)
  {
    predicate Fits() {
      written <= size <= APP_SLOT_SIZE && blockSeq < 0x100 && saved < WORD_LIMIT
    }

    // A transfer that still takes data.
    predicate Open() { active && !closed }
  }

  const NO_XFER := Xfer(false, false, 0, 0, 0, 0)

  datatype State = State(flash: Image, x: Xfer)

  // How the device may misbehave. Tearing: any content in the page or doubleword being
  // worked on. Stepwise: a page erase or a doubleword program happens or does not.
  // AtomicMeta: as Tearing, but the meta page is rewritten in one step or not at all.
  datatype Faults = Tearing | Stepwise | AtomicMeta

  // ----- Requests -----

  function BitsBigEndian(s: seq<Octet>, i: nat): bv32
    requires i + 4 <= |s|
  {
    BitsAt([s[i + 3], s[i + 2], s[i + 1], s[i]], 0)
  }

  function Refusal(sid: Octet, code: Octet): seq<Octet> {
    [0x7F, sid, code]
  }

  datatype Verdict = Refuse(code: Octet) | Take(size: nat)

  // What 0x34 asks for, or why it is refused.
  function DownloadVerdict(req: seq<Octet>): (v: Verdict)
    ensures v.Take? ==> 0 < v.size <= APP_SLOT_SIZE
  {
    if |req| < 3 then Refuse(NRC_LENGTH)
    else
      var alen, slen := req[1] % 16, req[1] / 16;
      if alen == 0 || slen == 0 || alen > 4 || slen > 4 then Refuse(NRC_RANGE)
      else if |req| < 2 + alen + slen then Refuse(NRC_LENGTH)
      else
        var addr := BigEndian(req[2..2 + alen]);
        var size := BigEndian(req[2 + alen..2 + alen + slen]);
        if addr != APP_BASE || size == 0 || size > APP_SLOT_SIZE then Refuse(NRC_RANGE)
        else Take(size)
  }

  function TransferVerdict(x: Xfer, req: seq<Octet>): (v: Verdict)
    requires x.Fits()
    ensures v.Take? ==> x.Open() && |req| == v.size + 2 && v.size > 0 && x.written + v.size <= x.size
  {
    if !x.active || x.closed || |req| < 3 then Refuse(NRC_CONDITIONS)
    else if req[1] != x.blockSeq then Refuse(NRC_SEQUENCE)
    else if x.written + (|req| - 2) > x.size then Refuse(NRC_SUSPENDED)
    else Take(|req| - 2)
  }

  // CheckMemory accepts the first `size` bytes of the slot, or is refused.
  function CheckVerdict(s: State, req: seq<Octet>): (v: Verdict)
    requires s.x.Fits()
    ensures v.Take? ==> s.x.active && s.x.closed && v.size == s.x.written > 0 && |req| == 12
  {
    if |req| < 4 then Refuse(NRC_LENGTH)
    else if req[2] != 0x02 || req[3] != 0x03 then Refuse(NRC_RANGE)
    else if req[1] % 0x80 != 1 then Refuse(NRC_SUBFUNCTION)
    else if !s.x.active || !s.x.closed || |req| != 12 || s.x.written == 0 then Refuse(NRC_CONDITIONS)
    else if BigEndian(req[4..8]) < s.x.saved then Refuse(NRC_RANGE)
    else if Crc(Slot(s.flash)[..s.x.written]) != BitsBigEndian(req, 8) then Refuse(NRC_PROGRAMMING)
    else Take(s.x.written)
  }

  function UpdatingMeta(saved: nat): (m: Meta)
    requires saved < WORD_LIMIT
    ensures m.Fits()
  {
    Meta(META_MAGIC, STATE_UPDATING, saved, 0, 0)
  }

  function ValidMeta(s: State, req: seq<Octet>): (m: Meta)
    requires s.x.Fits() && |req| == 12
    ensures m.Fits() && IsValid(m) && m.size == s.x.written && m.version == BigEndian(req[4..8])
  {
    BigEndianBound(req[4..8]);
    Meta(META_MAGIC, STATE_VALID, BigEndian(req[4..8]), s.x.written, Crc(Slot(s.flash)[..s.x.written]))
  }

  // ----- What one service does to the flash, to RAM and in answer -----

  ghost predicate MetaRewrite(f: Faults, img: Image, m: Meta, visited: seq<Image>, ok: bool)
    requires m.Fits()
  {
    if f.AtomicMeta? then visited == if ok then [WithMeta(img, m)] else []
    else MetaWriteVisits(f.Tearing?, img, m, visited, ok)
  }

  ghost predicate SlotErase(f: Faults, img: Image, size: nat, visited: seq<Image>, ok: bool) {
    EraseVisits(!f.Stepwise?, img, APP_BASE, PagesFor(size), visited, ok)
  }

  ghost predicate SlotWrite(f: Faults, img: Image, offset: nat, data: seq<Octet>, visited: seq<Image>, ok: bool)
    requires offset + |data| <= APP_SLOT_SIZE
  {
    WriteVisits(!f.Stepwise?, img, APP_BASE + offset, data, visited, ok)
  }

  // 0x34 that passed its checks: first the marker (the first k images), then the erase. A
  // failure of either leaves the transfer state as it was, but for the counter read.
  ghost predicate DownloadMarkerFails(f: Faults, s: State, visited: seq<Image>, x': Xfer, resp: seq<Octet>) {
    var saved := RollbackCounter(s.flash);
    && MetaRewrite(f, s.flash, UpdatingMeta(saved), visited, false)
    && x' == s.x.(saved := saved)
    && resp == Refusal(SID_DOWNLOAD, NRC_PROGRAMMING)
  }

  ghost predicate DownloadErases(f: Faults, s: State, size: nat, visited: seq<Image>, x': Xfer, resp: seq<Octet>,
                                 k: nat, ok: bool) {
    var saved := RollbackCounter(s.flash);
    && k <= |visited|
    && MetaRewrite(f, s.flash, UpdatingMeta(saved), visited[..k], true)
    && SlotErase(f, WithMeta(s.flash, UpdatingMeta(saved)), size, visited[k..], ok)
    && x' == (if ok then Xfer(true, false, size, 0, 1, saved) else s.x.(saved := saved))
    && resp == if ok then [0x74, 0x22, 0x00, 0xF8] else Refusal(SID_DOWNLOAD, NRC_PROGRAMMING)
  }

  ghost predicate Download(f: Faults, s: State, size: nat, visited: seq<Image>, x': Xfer, resp: seq<Octet>) {
    || DownloadMarkerFails(f, s, visited, x', resp)
    || exists k: nat, ok: bool :: DownloadErases(f, s, size, visited, x', resp, k, ok)
  }

  ghost predicate TransferEnds(f: Faults, s: State, req: seq<Octet>, visited: seq<Image>, x': Xfer, resp: seq<Octet>,
                               ok: bool)
    requires s.x.Fits() && TransferVerdict(s.x, req).Take?
  {
    && SlotWrite(f, s.flash, s.x.written, req[2..], visited, ok)
    && x' == (if ok then s.x.(written := s.x.written + |req| - 2, blockSeq := (s.x.blockSeq + 1) % 0x100) else s.x)
    && resp == if ok then [0x76, req[1]] else Refusal(SID_TRANSFER, NRC_PROGRAMMING)
  }

  ghost predicate Transfer(f: Faults, s: State, req: seq<Octet>, visited: seq<Image>, x': Xfer, resp: seq<Octet>)
    requires s.x.Fits() && TransferVerdict(s.x, req).Take?
  {
    exists ok: bool :: TransferEnds(f, s, req, visited, x', resp, ok)
  }

  ghost predicate CheckEnds(f: Faults, s: State, req: seq<Octet>, visited: seq<Image>, x': Xfer, resp: seq<Octet>,
                            ok: bool)
    requires s.x.Fits() && CheckVerdict(s, req).Take?
  {
    && MetaRewrite(f, s.flash, ValidMeta(s, req), visited, ok)
    && x' == (if ok then s.x.(active := false) else s.x)
    && resp == if ok then [0x71, 0x01, 0x02, 0x03] + CrcOctets(ValidMeta(s, req).crc)
               else Refusal(SID_ROUTINE, NRC_PROGRAMMING)
  }

  ghost predicate CheckMemory(f: Faults, s: State, req: seq<Octet>, visited: seq<Image>, x': Xfer, resp: seq<Octet>)
    requires s.x.Fits() && CheckVerdict(s, req).Take?
  {
    exists ok: bool :: CheckEnds(f, s, req, visited, x', resp, ok)
  }

  function CrcOctets(c: bv32): seq<Octet> {
    var le := BitsOctets(c);
    [le[3], le[2], le[1], le[0]]
  }

  // One service request behind the session and security gate.
  ghost predicate Serves(f: Faults, s: State, req: seq<Octet>, visited: seq<Image>, x': Xfer, resp: seq<Octet>)
    requires s.x.Fits() && req != []
  {
    if req[0] == SID_DOWNLOAD then
      match DownloadVerdict(req)
      case Refuse(code) => visited == [] && x' == s.x && resp == Refusal(SID_DOWNLOAD, code)
      case Take(size) => Download(f, s, size, visited, x', resp)
    else if req[0] == SID_TRANSFER then
      match TransferVerdict(s.x, req)
      case Refuse(code) => visited == [] && x' == s.x && resp == Refusal(SID_TRANSFER, code)
      case Take(_) => Transfer(f, s, req, visited, x', resp)
    else if req[0] == SID_EXIT then
      && visited == []
      && if s.x.Open() then x' == s.x.(closed := true) && resp == [0x77]
         else x' == s.x && resp == Refusal(SID_EXIT, NRC_CONDITIONS)
    else if req[0] == SID_ROUTINE then
      match CheckVerdict(s, req)
      case Refuse(code) => visited == [] && x' == s.x && resp == Refusal(SID_ROUTINE, code)
      case Take(_) => CheckMemory(f, s, req, visited, x', resp)
    else visited == [] && x' == s.x
  }

  // Who may call: a functionally addressed request never reaches these services, a wrong
  // session or a locked server is answered without touching anything.
  datatype Access = Access(functional: bool, programming: bool, unlocked: bool)
  {
    predicate Granted() { !functional && programming && unlocked }
  }

  predicate IsFlashService(req: seq<Octet>)
    requires req != []
  {
    req[0] in [SID_DOWNLOAD, SID_TRANSFER, SID_EXIT, SID_ROUTINE]
  }

  function Suppressed(req: seq<Octet>, resp: seq<Octet>): seq<Octet>
    requires req != []
  {
    if resp != [] && resp[0] != 0x7F && |req| >= 2 && req[1] >= 0x80 && req[0] == SID_ROUTINE
    then [] else resp
  }

  ghost predicate Dispatches(f: Faults, s: State, a: Access, req: seq<Octet>, visited: seq<Image>, x': Xfer,
                             resp: seq<Octet>)
    requires s.x.Fits() && req != [] && IsFlashService(req)
  {
    if a.functional then visited == [] && x' == s.x && resp == []
    else if !a.programming then visited == [] && x' == s.x && resp == Refusal(req[0], NRC_SESSION)
    else if !a.unlocked then visited == [] && x' == s.x && resp == Refusal(req[0], NRC_DENIED)
    else exists r :: Serves(f, s, req, visited, x', r) && resp == Suppressed(req, r)
  }

  // ----- The server -----

  lemma MarkThenErase(f: Faults, img: Image, m: Meta, size: nat, first: seq<Image>, more: seq<Image>, ok: bool)
    requires !f.AtomicMeta? && size <= APP_SLOT_SIZE && m.Fits()
    requires MetaWriteVisits(f.Tearing?, img, m, first, true)
    requires InRange(APP_BASE, size) ==>
      EraseVisits(f.Tearing?, Flash.Now(img, first), PageStart(APP_BASE), PagesFor(size), more, ok)
    ensures InRange(APP_BASE, size)
    ensures Flash.Now(img, first + more) == Flash.Now(Flash.Now(img, first), more)
    ensures (first + more)[..|first|] == first && (first + more)[|first|..] == more
    ensures SlotErase(f, WithMeta(img, m), size, more, ok)
    ensures MetaRewrite(f, img, m, first, true)
  {
    assert PageStart(APP_BASE) == APP_BASE;
  }

  // The checks of 0x34, with the two loops that assemble address and size.
  method ParseDownload(req: seq<Octet>) returns (v: Verdict)
    ensures v == DownloadVerdict(req)
  {
    if |req| < 3 {
      return Refuse(NRC_LENGTH);
    }
    var alen, slen := req[1] % 16, req[1] / 16;
    if alen == 0 || slen == 0 || alen > 4 || slen > 4 {
      return Refuse(NRC_RANGE);
    }
    if |req| < 2 + alen + slen {
      return Refuse(NRC_LENGTH);
    }
    var addr := ReadBigEndian(req, 2, alen);
    var size := ReadBigEndian(req, 2 + alen, slen);
    if addr != APP_BASE || size == 0 || size > APP_SLOT_SIZE {
      return Refuse(NRC_RANGE);
    }
    return Take(size);
  }

  // The checks of CheckMemory.
  method ParseCheck(s: State, req: seq<Octet>) returns (v: Verdict)
    requires s.x.Fits()
    ensures v == CheckVerdict(s, req)
  {
    if |req| < 4 {
      return Refuse(NRC_LENGTH);
    }
    if req[2] != 0x02 || req[3] != 0x03 {
      return Refuse(NRC_RANGE);
    }
    if req[1] % 0x80 != 1 {
      return Refuse(NRC_SUBFUNCTION);
    }
    if !s.x.active || !s.x.closed || |req| != 12 || s.x.written == 0 {
      return Refuse(NRC_CONDITIONS);
    }
    var version := ReadBigEndian(req, 4, 4);
    if version < s.x.saved {
      return Refuse(NRC_RANGE);
    }
    var crc := ComputeCrc(Slot(s.flash)[..s.x.written]);
    if crc != BitsBigEndian(req, 8) {
      return Refuse(NRC_PROGRAMMING);
    }
    return Take(s.x.written);
  }

  class Server {
    const dev: FlashDevice
    var xferActive: bool
    var xferClosed: bool
    var xferSize: nat
    var xferWritten: nat
    var xferBlockSeq: nat
    var savedRollback: nat

    constructor (d: FlashDevice)
      ensures dev == d && Ram() == NO_XFER
    {
      dev := d;
      xferActive, xferClosed, xferSize, xferWritten, xferBlockSeq, savedRollback := false, false, 0, 0, 0, 0;
    }

    ghost function Ram(): Xfer
      reads this
    {
      Xfer(xferActive, xferClosed, xferSize, xferWritten, xferBlockSeq, savedRollback)
    }

    ghost function Now(): State
      reads this, dev
    {
      State(dev.mem, Ram())
    }

    ghost function DeviceFaults(): Faults {
      if dev.tearing then Tearing else Stepwise
    }

    // The device moved through `visited` and nothing else.
    twostate predicate Moved(visited: seq<Image>)
      reads this, dev
    {
      && dev.history == old(dev.history) + visited
      && dev.mem == Flash.Now(old(dev.mem), visited)
    }

    // BL_UDS_ResetTransfer: the counter read at 0x34 survives.
    method ResetTransfer()
      modifies this
      ensures Ram() == NO_XFER.(saved := old(savedRollback))
    {
      xferActive, xferClosed, xferSize, xferWritten, xferBlockSeq := false, false, 0, 0, 0;
    }

    // `early` is what goes out before the flash work begins.
    method HandleRequestDownload(req: seq<Octet>)
      returns (early: seq<seq<Octet>>, resp: seq<Octet>, ghost visited: seq<Image>)
      requires Ram().Fits() && req != [] && req[0] == SID_DOWNLOAD
      modifies this, dev
      ensures Moved(visited) && Ram().Fits()
      ensures Serves(DeviceFaults(), old(Now()), req, visited, Ram(), resp)
      ensures early == if DownloadVerdict(req).Take? then [Refusal(SID_DOWNLOAD, NRC_PENDING)] else []
    {
      early, visited := [], [];
      var v := ParseDownload(req);
      if v.Refuse? {
        return [], Refusal(SID_DOWNLOAD, v.code), [];
      }
      early := [Refusal(SID_DOWNLOAD, NRC_PENDING)];
      resp, visited := MarkAndErase(v.size);
    }

    method MarkAndErase(size: nat) returns (resp: seq<Octet>, ghost visited: seq<Image>)
      requires Ram().Fits() && 0 < size <= APP_SLOT_SIZE
      modifies this, dev
      ensures Moved(visited) && Ram().Fits()
      ensures Download(DeviceFaults(), old(Now()), size, visited, Ram(), resp)
    {
      hide RollbackCounter, UpdatingMeta, MetaRewrite, SlotErase, WithMeta;
      ghost var s, f := Now(), DeviceFaults();
      savedRollback := RollbackCounter(dev.mem);
      var ok;
      ghost var first;
      ok, visited, first := EraseBehindMarker(UpdatingMeta(savedRollback), size);
      if ok {
        xferActive, xferClosed, xferSize, xferWritten, xferBlockSeq := true, false, size, 0, 1;
        resp := [0x74, 0x22, 0x00, 0xF8];
      } else {
        resp := Refusal(SID_DOWNLOAD, NRC_PROGRAMMING);
      }
      assert visited[..|first|] == first;
      if !(first == visited && !ok && MetaRewrite(f, s.flash, UpdatingMeta(savedRollback), visited, false)) {
        assert MetaRewrite(f, s.flash, UpdatingMeta(savedRollback), first, true);
        assert SlotErase(f, WithMeta(s.flash, UpdatingMeta(savedRollback)), size, visited[|first|..], ok);
        assert DownloadErases(f, s, size, visited, Ram(), resp, |first|, ok);
      }
    }

    // The two flash operations of 0x34; `first` is what the marker alone went through.
    method EraseBehindMarker(m: Meta, size: nat) returns (ok: bool, ghost visited: seq<Image>, ghost first: seq<Image>)
      requires m.Fits() && 0 < size <= APP_SLOT_SIZE
      modifies dev
      ensures Moved(visited)
      ensures first <= visited
      ensures || (&& MetaRewrite(DeviceFaults(), old(dev.mem), m, first, true)
                  && SlotErase(DeviceFaults(), WithMeta(old(dev.mem), m), size, visited[|first|..], ok))
              || (!ok && first == visited && MetaRewrite(DeviceFaults(), old(dev.mem), m, visited, false))
    {
      ghost var img := dev.mem;
      ok, visited := WriteMeta(dev, m);
      first := visited;
      if !ok {
        return;
      }
      ghost var more;
      ok, more := dev.Erase(APP_BASE, size);
      visited := first + more;
      MarkThenErase(DeviceFaults(), img, m, size, first, more, ok);
    }

    method HandleTransferData(req: seq<Octet>) returns (resp: seq<Octet>, ghost visited: seq<Image>)
      requires Ram().Fits() && req != [] && req[0] == SID_TRANSFER
      modifies this, dev
      ensures Moved(visited) && Ram().Fits()
      ensures Serves(DeviceFaults(), old(Now()), req, visited, Ram(), resp)
    {
      visited := [];
      if !xferActive || xferClosed || |req| < 3 {
        return Refusal(SID_TRANSFER, NRC_CONDITIONS), [];
      }
      if req[1] != xferBlockSeq {
        return Refusal(SID_TRANSFER, NRC_SEQUENCE), [];
      }
      var dlen := |req| - 2;
      if xferWritten + dlen > xferSize {
        return Refusal(SID_TRANSFER, NRC_SUSPENDED), [];
      }
      var ok;
      ok, visited := dev.Write(APP_BASE + xferWritten, req[2..]);
      if ok {
        xferWritten := xferWritten + dlen;
        xferBlockSeq := (xferBlockSeq + 1) % 0x100;
        resp := [0x76, req[1]];
      } else {
        resp := Refusal(SID_TRANSFER, NRC_PROGRAMMING);
      }
      assert TransferEnds(DeviceFaults(), old(Now()), req, visited, Ram(), resp, ok);
    }

    method HandleTransferExit(req: seq<Octet>) returns (resp: seq<Octet>, ghost visited: seq<Image>)
      requires Ram().Fits() && req != [] && req[0] == SID_EXIT
      modifies this
      ensures Moved(visited) && Ram().Fits()
      ensures Serves(DeviceFaults(), old(Now()), req, visited, Ram(), resp)
    {
      visited := [];
      if !xferActive || xferClosed {
        return Refusal(SID_EXIT, NRC_CONDITIONS), [];
      }
      xferClosed := true;
      resp := [0x77];
    }

    method HandleRoutineControl(req: seq<Octet>) returns (resp: seq<Octet>, ghost visited: seq<Image>)
      requires Ram().Fits() && req != [] && req[0] == SID_ROUTINE
      modifies this, dev
      ensures Moved(visited) && Ram().Fits()
      ensures Serves(DeviceFaults(), old(Now()), req, visited, Ram(), resp)
    {
      hide CheckVerdict, MetaWriteVisits, Crc, WithMeta, DownloadVerdict, TransferVerdict;
      var s := State(dev.mem, Xfer(xferActive, xferClosed, xferSize, xferWritten, xferBlockSeq, savedRollback));
      visited := [];
      var v := ParseCheck(s, req);
      if v.Refuse? {
        return Refusal(SID_ROUTINE, v.code), [];
      }
      var m := ValidMeta(s, req);
      var ok;
      ok, visited := WriteMeta(dev, m);
      if ok {
        xferActive := false;
        resp := [0x71, 0x01, 0x02, 0x03] + CrcOctets(m.crc);
      } else {
        resp := Refusal(SID_ROUTINE, NRC_PROGRAMMING);
      }
      assert CheckEnds(DeviceFaults(), s, req, visited, Ram(), resp, ok);
    }

    // UDS_DispatchRequest for the flash services, with gate_flash_services.
    method Dispatch(a: Access, req: seq<Octet>)
      returns (early: seq<seq<Octet>>, resp: seq<Octet>, ghost visited: seq<Image>)
      requires Ram().Fits() && req != [] && IsFlashService(req)
      modifies this, dev
      ensures Moved(visited) && Ram().Fits()
      ensures Dispatches(DeviceFaults(), old(Now()), a, req, visited, Ram(), resp)
      ensures early == if a.Granted() && req[0] == SID_DOWNLOAD && DownloadVerdict(req).Take?
                       then [Refusal(SID_DOWNLOAD, NRC_PENDING)] else []
    {
      early, visited := [], [];
      if a.functional {
        return [], [], [];
      }
      if !a.programming {
        return [], Refusal(req[0], NRC_SESSION), [];
      }
      if !a.unlocked {
        return [], Refusal(req[0], NRC_DENIED), [];
      }
      if req[0] == SID_DOWNLOAD {
        early, resp, visited := HandleRequestDownload(req);
      } else if req[0] == SID_TRANSFER {
        resp, visited := HandleTransferData(req);
      } else if req[0] == SID_EXIT {
        resp, visited := HandleTransferExit(req);
      } else {
        resp, visited := HandleRoutineControl(req);
      }
      resp := Suppressed(req, resp);
    }
  }
}
