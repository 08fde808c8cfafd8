// From reset to the application: the handoff flag, the gate and the superloop
// (Core/Src/bl_main.c:79-104, 125-173, flag in Core/Inc/bl_handoff.h:31-46).

module BootLoop {
  import opened Words
  import opened Flash
  import opened BootGate
  import opened FlashServer

  const HANDOFF_MAGIC: nat := 0xB007B007
  const REASON_UPDATE: nat := 1

  datatype Session = Default | Programming | Extended

  // ----- When the application is started -----

  // A pass of the superloop: the flash and the session it finds once requests are served.
  datatype Pass = Pass(img: Image, session: Session)

  predicate StartsIn(p: Pass) {
    SelfHeals(p.img, p.session.Default?)
  }

  datatype Start = AtGate | InPass(k: nat) | Never

  // The first pass that starts the application.
  function FirstPass(ps: seq<Pass>, k: nat): Start
    requires k <= |ps|
    decreases |ps| - k
  {
    if k == |ps| then Never else if StartsIn(ps[k]) then InPass(k) else FirstPass(ps, k + 1)
  }

  // From reset on.
  function StartOf(img: Image, updateFlag: bool, ps: seq<Pass>): Start {
    if Gate(img, updateFlag).Jumps() then AtGate else FirstPass(ps, 0)
  }

  lemma {:induction false} FirstPassIs(ps: seq<Pass>, k: nat)
    requires k <= |ps|
    ensures match FirstPass(ps, k)
            case AtGate => false
            case InPass(n) => k <= n < |ps| && StartsIn(ps[n]) && forall j :: k <= j < n ==> !StartsIn(ps[j])
            case Never => forall j :: k <= j < |ps| ==> !StartsIn(ps[j])
    decreases |ps| - k
  {
    hide StartsIn;
    if k < |ps| && !StartsIn(ps[k]) {
      FirstPassIs(ps, k + 1);
    }
  }

  // At reset, exactly without a handoff and with a checked record, or plausible vectors under no
  // record; later, in the first pass that finds the Default session and a checked record.
  lemma StartsExactly(img: Image, updateFlag: bool, ps: seq<Pass>)
    ensures var s := StartOf(img, updateFlag, ps);
            && (s.AtGate? <==> !updateFlag && (AppCrcOk(img) || (MetaAbsent(img) && VectorsOk(img))))
            && (s.InPass? ==> s.k < |ps| && ps[s.k].session == Default && AppCrcOk(ps[s.k].img))
            && (s.InPass? ==> forall j :: 0 <= j < s.k ==> ps[j].session != Default || !AppCrcOk(ps[j].img))
            && (s.Never? ==> forall j :: 0 <= j < |ps| ==> ps[j].session != Default || !AppCrcOk(ps[j].img))
  {
    hide AppCrcOk, MetaAbsent, VectorsOk, Gate;
    GateExactly(img, updateFlag);
    FirstPassIs(ps, 0);
  }

  // After a handoff nothing is started, however good the image, before the session is back at
  // Default; and a record that is checked is started then.
  lemma UpdateHolds(img: Image, ps: seq<Pass>)
    ensures (forall j :: 0 <= j < |ps| ==> ps[j].session != Default) ==> StartOf(img, true, ps) == Never
    ensures forall k :: 0 <= k < |ps| && ps[k] == Pass(img, Default) && AppCrcOk(img)
                        && (forall j :: 0 <= j < k ==> ps[j].session != Default)
                        ==> StartOf(img, true, ps) == InPass(k)
  {
    hide AppCrcOk, MetaAbsent, VectorsOk, Gate, StartOf;
    StartsExactly(img, true, ps);
  }

  // ----- In place -----

  class Bootloader {
    const server: Server
    // no-init RAM: survives a reset
    var magic: nat
    var reason: nat
    var session: Session
    var previous: Session

    constructor (s: Server, m: nat, r: nat)
      ensures server == s && magic == m && reason == r
    {
      server, magic, reason, session, previous := s, m, r, Default, Default;
    }

    predicate UpdateAsked()
      reads this
    {
      magic == HANDOFF_MAGIC && reason == REASON_UPDATE
    }

    // What the application leaves before it resets (Core/Src/uds_service.c:463-465).
    method AskForUpdate()
      modifies this`magic, this`reason
      ensures UpdateAsked()
    {
      reason := REASON_UPDATE;
      magic := HANDOFF_MAGIC;
    }

    // From reset to the superloop. The flag works once.
    method Boot() returns (g: BootGate.Boot)
      modifies this
      ensures g == Gate(server.dev.mem, old(UpdateAsked())) && !UpdateAsked()
      ensures if old(UpdateAsked()) then magic == reason == 0 else magic == old(magic) && reason == old(reason)
      ensures session == previous == if old(UpdateAsked()) then Programming else Default
    {
      session := Default;
      if magic == HANDOFF_MAGIC && reason == REASON_UPDATE {
        magic, reason := 0, 0;
        session := Programming;
        g := StayOnRequest;
      } else {
        var absent := ScanMeta(server.dev.mem);
        if absent {
          g := if VectorsOk(server.dev.mem) then JumpUnchecked else StayNoApp;
        } else {
          g := if AppCrcOk(server.dev.mem) then JumpChecked else StayInvalid;
        }
      }
      previous := session;
    }

    // One pass, in which requests or the timeout left the session at `now`: a transfer under way
    // is dropped on the way back to Default.
    method Loop(now: Session) returns (started: bool)
      modifies this`session, this`previous, server
      ensures session == previous == now
      ensures started <==> StartsIn(Pass(server.dev.mem, now))
      ensures server.Ram() ==
              if now.Default? && !old(previous).Default? then NO_XFER.(saved := old(server.savedRollback))
              else old(server.Ram())
    {
      session := now;
      if session != previous && session.Default? {
        server.ResetTransfer();
      }
      previous := session;
      started := session.Default? && AppCrcOk(server.dev.mem);
    }
  }
}
