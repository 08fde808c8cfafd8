// CAN-FD frames as ISO 15765-2:2016 section 9.6 lays them out, and the segmentation of a
// message into them (Core/Inc/iso_tp.h:38-81, Core/Inc/can_addressing.h:35-66,
// Core/Src/fdcan_config.c:63-86).

module IsoTpFrames {
  import opened Words

  const FRAME_SIZE: nat := 64
  const MAX_MESSAGE: nat := 512
  const SF_MAX: nat := 62
  const CF_MAX: nat := 63
  const FF_CLASSIC_MAX: nat := 4095

  const PCI_SINGLE: nat := 0
  const PCI_FIRST: nat := 1
  const PCI_CONSECUTIVE: nat := 2
  const PCI_FLOW: nat := 3

  const FS_CONTINUE: nat := 0
  const FS_WAIT: nat := 1
  const FS_OVERFLOW: nat := 2

  const ID_FUNCTIONAL: nat := 0x7DF
  const ID_PHYSICAL: nat := 0x7E0
  const ID_RESPONSE: nat := 0x7E8

  datatype Addr = Ignored | Physical | Functional

  function Classify(id: nat): Addr {
    if id == ID_FUNCTIONAL then Functional else if id == ID_PHYSICAL then Physical else Ignored
  }

  function Low(o: Octet): (n: nat)
    ensures n < 16
  {
    o % 16
  }

  function High(o: Octet): (n: nat)
    ensures n < 16
  {
    o / 16
  }

  // The first byte of a frame: its type above, a nibble of content below.
  function Pci(kind: nat, nibble: nat): (o: Octet)
    requires kind < 16 && nibble < 16
    ensures High(o) == kind && Low(o) == nibble
  {
    (16 * kind + nibble)
  }

  // A received frame: the driver's 64-byte array and how many of its bytes came in.
  datatype Frame = Frame(id: nat, data: seq<Octet>, dlc: nat)
  {
    predicate Fits() { |data| == FRAME_SIZE && dlc <= FRAME_SIZE }
  }

  // FDCAN_BytesToDlc followed by the receiver's DLC_CODE_TO_BYTES: the next legal length.
  function LegalLength(used: nat): (n: nat)
    requires used <= FRAME_SIZE
    ensures used <= n <= FRAME_SIZE
  {
    if used <= 8 then used
    else if used <= 12 then 12
    else if used <= 16 then 16
    else if used <= 20 then 20
    else if used <= 24 then 24
    else if used <= 32 then 32
    else if used <= 48 then 48
    else 64
  }

  const LEGAL_LENGTHS: set<nat> := {0, 1, 2, 3, 4, 5, 6, 7, 8, 12, 16, 20, 24, 32, 48, 64}

  // It is the least length of a CAN-FD frame that has room.
  lemma LegalIsLeast(used: nat)
    requires used <= FRAME_SIZE
    ensures LegalLength(used) in LEGAL_LENGTHS
    ensures forall n :: n in LEGAL_LENGTHS && n >= used ==> n >= LegalLength(used)
  {
  }

  // A frame with `used` meaningful bytes as a receiver sees it under the given identifier:
  // filled with 0xCC up to a legal length, zeros behind that.
  function Arrives(id: nat, used: seq<Octet>): (f: Frame)
    requires |used| <= FRAME_SIZE
    ensures f.Fits() && f.id == id && f.dlc == LegalLength(|used|) && f.data[..|used|] == used
  {
    var n := LegalLength(|used|);
    var data := used + seq(n - |used|, _ => 0xCC) + seq(FRAME_SIZE - n, _ => 0);
    Frame(id, data, n)
  }

  predicate AllFit(fs: seq<seq<Octet>>) {
    forall f :: f in fs ==> |f| <= FRAME_SIZE
  }

  // ----- Segmentation -----

  function BigEndian32(n: nat): (s: seq<Octet>)
    requires n < WORD_LIMIT
    ensures |s| == 4
  {
    [(n / 0x100_0000), (n / 0x1_0000 % 0x100), (n / 0x100 % 0x100), (n % 0x100)]
  }

  function Read32(s: seq<Octet>, i: nat): (n: nat)
    requires i + 4 <= |s|
    ensures n < WORD_LIMIT
  {
    Join(s[i + 3], s[i + 2], s[i + 1], s[i])
  }

  lemma Read32Back(n: nat)
    requires n < WORD_LIMIT
    ensures Read32(BigEndian32(n), 0) == n
  {
    JoinDigits(n);
  }

  function SingleFrame(m: seq<Octet>): (s: seq<Octet>)
    requires 0 < |m| <= SF_MAX
    ensures |s| <= FRAME_SIZE
  {
    if |m| <= 7 then [Pci(PCI_SINGLE, |m|)] + m
    else [Pci(PCI_SINGLE, 0), |m|] + m
  }

  function FirstHeader(total: nat): (s: seq<Octet>)
    requires total < WORD_LIMIT
    ensures |s| == if total <= FF_CLASSIC_MAX then 2 else 6
  {
    if total <= FF_CLASSIC_MAX then [Pci(PCI_FIRST, total / 0x100), (total % 0x100)]
    else [Pci(PCI_FIRST, 0), 0] + BigEndian32(total)
  }

  function FirstPayload(total: nat): (n: nat)
    requires total < WORD_LIMIT
  {
    FRAME_SIZE - |FirstHeader(total)|
  }

  function FirstFrame(m: seq<Octet>): (s: seq<Octet>)
    requires SF_MAX < |m| < WORD_LIMIT
    ensures |s| == FRAME_SIZE
  {
    FirstHeader(|m|) + m[..FirstPayload(|m|)]
  }

  function ConsecutiveFrame(seqNo: nat, chunk: seq<Octet>): (s: seq<Octet>)
    requires seqNo < 16 && |chunk| <= CF_MAX
    ensures |s| == |chunk| + 1
  {
    [Pci(PCI_CONSECUTIVE, seqNo)] + chunk
  }

  // The consecutive frames that remain once `sent` bytes are out, the next one numbered seqNo.
  function Rest(m: seq<Octet>, sent: nat, seqNo: nat): (fs: seq<seq<Octet>>)
    requires seqNo < 16
    ensures AllFit(fs)
    decreases |m| - sent
  {
    if sent >= |m| then []
    else
      var n := Min(CF_MAX, |m| - sent);
      [ConsecutiveFrame(seqNo, m[sent..sent + n])] + Rest(m, sent + n, (seqNo + 1) % 16)
  }

  // The frames of a message, each as its meaningful bytes.
  function Segments(m: seq<Octet>): (fs: seq<seq<Octet>>)
    requires 0 < |m| < WORD_LIMIT
    ensures AllFit(fs)
  {
    if |m| <= SF_MAX then [SingleFrame(m)]
    else [FirstFrame(m)] + Rest(m, FirstPayload(|m|), 1)
  }
}
