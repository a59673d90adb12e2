/** Message buffer setup and transmission: what the frame headers in message RAM say. */
module FlexRayController {
  import opened Arith
  import opened FlexRayHeader
  import opened FlexRayLayout

  /** A frame header in message RAM.  Frame id, payload length and CRC are bit fields of 11, 7 and
      11 bits: storing a value keeps its low bits. */
  datatype Header = Header(ppi: bool, fid: nat, pldlen: nat, hdcrc: nat)

  /** Field widths that a configuration must respect. */
  predicate ValidConfig(cfg: Config) {
    && cfg.declaredStatic <= |cfg.trigs|
    && cfg.payloadStatic < 0x80
    && (forall i | 0 <= i < |cfg.trigs| :: cfg.trigs[i].slotId < 0x800 && cfg.trigs[i].lsduLength < 0x100)
    && (forall i | 0 <= i < |cfg.lpdus| :: cfg.lpdus[i] < |cfg.trigs|)
  }

  function SyncFlag(cfg: Config, n: nat): bool
    requires n < |cfg.trigs|
  {
    cfg.trigs[n].slotId == cfg.keySlotId && cfg.keyForSync
  }

  function StartupFlag(cfg: Config, n: nat): bool
    requires n < |cfg.trigs|
  {
    cfg.trigs[n].slotId == cfg.keySlotId && cfg.keyForStartup
  }

  /** The header fields that getHeaderCrc covers.  Its test for a dynamic slot is `>`, that of
      slotIsStatic is `<`. */
  function CrcFields(cfg: Config, n: nat, dynLen: nat): Fields
    requires n < |cfg.trigs|
  {
    var t := cfg.trigs[n];
    Fields(SyncFlag(cfg, n), StartupFlag(cfg, n), t.slotId,
           if t.slotId > cfg.staticSlots then dynLen / 2 else cfg.payloadStatic)
  }

  function FieldsCrc(f: Fields): nat {
    HeaderCrc(Word(f))
  }

  function GetHeaderCrc(cfg: Config, n: nat, dynLen: nat): nat
    requires n < |cfg.trigs|
  {
    FieldsCrc(CrcFields(cfg, n, dynLen))
  }

  /** The header that setup writes for trigger `n`. */
  function SetupHeader(cfg: Config, n: nat): Header
    requires n < |cfg.trigs|
  {
    var t := cfg.trigs[n];
    Header(t.preamble, t.slotId % 0x800, (t.lsduLength / 2) % 0x80,
           GetHeaderCrc(cfg, n, if IsStatic(cfg, n) then 0 else t.lsduLength) % 0x800)
  }

  /** Fr_Internal_UpdateHeaderLength. */
  function Resized(cfg: Config, n: nat, h: Header, length: nat): Header
    requires n < |cfg.trigs|
  {
    h.(pldlen := (length / 2) % 0x80, hdcrc := GetHeaderCrc(cfg, n, length) % 0x800)
  }

  /** The conditions under which a transmission rewrites the header. */
  predicate Resizes(cfg: Config, lengthSetup: seq<nat>, n: nat, length: nat)
    requires n < |cfg.trigs| == |lengthSetup|
  {
    && cfg.trigs[n].allowDynamicLen && cfg.trigs[n].slotId > cfg.staticSlots
    && length != lengthSetup[n]
  }

  /** The frame of trigger `n` is in the dynamic segment and may have any length. */
  predicate Resizable(cfg: Config, n: nat)
    requires n < |cfg.trigs|
  {
    cfg.trigs[n].allowDynamicLen && cfg.trigs[n].slotId > cfg.staticSlots
  }

  /** Fr_TransmitTxLPdu as far as headers go; rejected requests leave them alone. */
  function Transmitted(cfg: Config, lengthSetup: seq<nat>, hs: seq<Header>, lpdu: nat, length: nat): (r: seq<Header>)
    requires ValidConfig(cfg) && |hs| == |cfg.trigs| == |lengthSetup|
    ensures |r| == |hs|
  {
    if lpdu >= |cfg.lpdus| then hs
    else
      var n := cfg.lpdus[lpdu];
      if length > cfg.trigs[n].lsduLength % 0x100 then hs
      else if Resizes(cfg, lengthSetup, n, length) then hs[n := Resized(cfg, n, hs[n], length)]
      else hs
  }

  /** The controller's share of the driver: message RAM headers and the buffer tables. */
  class Controller {
    const cfg: Config
    const baseAddr: nat
    const lengthSetup: seq<nat>
    const headers: array<Header>
    const mbdo: array<nat>
    const partitionAddr: array<nat>
    const bufferIdx: array<nat>

    ghost predicate Valid()
      reads this, headers, mbdo, partitionAddr, bufferIdx
    {
      && ValidConfig(cfg)
      && headers.Length == |cfg.trigs| == |lengthSetup| == bufferIdx.Length
      && mbdo.Length == partitionAddr.Length == |cfg.trigs| + SHADOW_BUFFER_CNT
      && mbdo != partitionAddr && mbdo != bufferIdx && partitionAddr != bufferIdx
    }

    /** Setup has run: every trigger has the buffer of its own number. */
    ghost predicate Ready()
      reads this, headers, mbdo, partitionAddr, bufferIdx
    {
      Valid() && forall n | 0 <= n < bufferIdx.Length :: bufferIdx[n] == n
    }

    constructor (c: Config, base: nat, setup: seq<nat>)
      requires ValidConfig(c) && |setup| == |c.trigs|
      ensures Valid() && cfg == c && baseAddr == base && lengthSetup == setup
      ensures fresh(headers) && fresh(mbdo) && fresh(partitionAddr) && fresh(bufferIdx)
    {
      cfg, baseAddr, lengthSetup := c, base, setup;
      headers := new Header[|c.trigs|](_ => Header(false, 0, 0, 0));
      mbdo := new nat[|c.trigs| + SHADOW_BUFFER_CNT](_ => 0);
      partitionAddr := new nat[|c.trigs| + SHADOW_BUFFER_CNT](_ => 0);
      bufferIdx := new nat[|c.trigs|](_ => 0);
    }

    /** The loop body has run for trigger `n`. */
    ghost predicate Placed(z: Sizes, n: nat)
      requires Valid() && n < |cfg.trigs|
      reads this, headers, mbdo, partitionAddr, bufferIdx
    {
      && bufferIdx[n] == n && headers[n] == SetupHeader(cfg, n)
      && mbdo[n] == PayloadOffset(cfg, z, n) && partitionAddr[n] == baseAddr + mbdo[n]
    }

    /** The loop and the shadow buffers of Fr_Internal_SetupRxTxResources. */
    method Setup()
      requires Valid()
      modifies headers, mbdo, partitionAddr, bufferIdx
      ensures Ready()
      ensures forall n | 0 <= n < |cfg.trigs| :: headers[n] == SetupHeader(cfg, n)
      ensures mbdo[..] == DataOffsets(cfg)
      ensures forall n | 0 <= n < mbdo.Length :: partitionAddr[n] == baseAddr + mbdo[n]
      ensures ApartInRam(cfg, mbdo[..], RamEnd(cfg)) <==> DeclaredRight(cfg)
    {
      SetupSized(SizesOf(cfg));
      assert mbdo[..] == DataOffsets(cfg);
      DisjointExactly(cfg);
    }

    method SetupSized(z: Sizes)
      requires Valid()
      modifies headers, mbdo, partitionAddr, bufferIdx
      ensures Ready()
      ensures forall n | 0 <= n < |cfg.trigs| :: headers[n] == SetupHeader(cfg, n)
      ensures forall n | 0 <= n < mbdo.Length :: mbdo[n] == Offset(cfg, z, n) && partitionAddr[n] == baseAddr + mbdo[n]
    {
      var count := |cfg.trigs|;
      var hdrSize := (count + SHADOW_BUFFER_CNT) * 8;
      var seg1Size := cfg.declaredStatic * z.p;
      var seg2Size := (count - cfg.declaredStatic) * z.a;
      SpanIsProduct(cfg.declaredStatic, z.p);
      SpanIsProduct(count - cfg.declaredStatic, z.a);
      SetupBuffers(z, hdrSize, seg1Size);
      SetupShadow(z, hdrSize + seg1Size + seg2Size);
    }

    /** The loop over the triggers. */
    method SetupBuffers(z: Sizes, hdrSize: nat, seg1Size: nat)
      requires Valid() && hdrSize == HdrSize(cfg) && seg1Size == Seg1Size(cfg, z)
      modifies headers, mbdo, partitionAddr, bufferIdx
      ensures Ready()
      ensures forall n | 0 <= n < |cfg.trigs| :: headers[n] == SetupHeader(cfg, n)
      ensures forall n | 0 <= n < |cfg.trigs| :: mbdo[n] == Offset(cfg, z, n) && partitionAddr[n] == baseAddr + mbdo[n]
    {
      var staticCnt, dynamicCnt := 0, 0;
      for n := 0 to |cfg.trigs|
        invariant staticCnt == StaticBefore(cfg, n) && dynamicCnt == n - staticCnt
        invariant forall i | 0 <= i < n :: Placed(z, i)
      {
        SetupBuffer(z, hdrSize, seg1Size, n, staticCnt, dynamicCnt);
        if SlotIsStatic(cfg, cfg.trigs[n].slotId) {
          staticCnt := staticCnt + 1;
        } else {
          dynamicCnt := dynamicCnt + 1;
        }
      }
      AllPlaced(z);
    }

    lemma AllPlaced(z: Sizes)
      requires Valid() && forall i | 0 <= i < |cfg.trigs| :: Placed(z, i)
      ensures forall n | 0 <= n < |cfg.trigs| :: bufferIdx[n] == n && headers[n] == SetupHeader(cfg, n)
      ensures forall n | 0 <= n < |cfg.trigs| :: mbdo[n] == Offset(cfg, z, n) && partitionAddr[n] == baseAddr + mbdo[n]
    {
      forall n | 0 <= n < |cfg.trigs|
        ensures bufferIdx[n] == n && headers[n] == SetupHeader(cfg, n)
        ensures mbdo[n] == Offset(cfg, z, n) && partitionAddr[n] == baseAddr + mbdo[n]
      {
        assert Placed(z, n);
      }
    }

    /** The body of that loop. */
    method SetupBuffer(z: Sizes, hdrSize: nat, seg1Size: nat, n: nat, staticCnt: nat, dynamicCnt: nat)
      requires Valid() && n < |cfg.trigs| && hdrSize == HdrSize(cfg) && seg1Size == Seg1Size(cfg, z)
      requires staticCnt == StaticBefore(cfg, n) && dynamicCnt == n - staticCnt
      modifies headers, mbdo, partitionAddr, bufferIdx
      ensures Placed(z, n)
      ensures forall i | 0 <= i < |cfg.trigs| && i != n :: old(Placed(z, i)) ==> Placed(z, i)
    {
      var isStatic := SlotIsStatic(cfg, cfg.trigs[n].slotId);
      var offset := if isStatic then hdrSize + staticCnt * z.p else hdrSize + seg1Size + dynamicCnt * z.a;
      SpanIsProduct(staticCnt, z.p);
      SpanIsProduct(dynamicCnt, z.a);
      partitionAddr[n] := baseAddr + offset;
      mbdo[n] := offset;
      bufferIdx[n] := n;
      WriteHeader(n, isStatic);
    }

    /** The header part of the loop body. */
    method WriteHeader(n: nat, isStatic: bool)
      requires Valid() && n < |cfg.trigs| && isStatic == IsStatic(cfg, n)
      modifies headers
      ensures headers[n] == SetupHeader(cfg, n)
      ensures forall i | 0 <= i < headers.Length && i != n :: headers[i] == old(headers[i])
    {
      var trig := cfg.trigs[n];
      var crc := ComputeHeaderCrc(n, if isStatic then 0 else trig.lsduLength);
      headers[n] := Header(trig.preamble, trig.slotId % 0x800, (trig.lsduLength / 2) % 0x80, crc % 0x800);
    }

    /** getHeaderCrc. */
    method ComputeHeaderCrc(n: nat, dynLen: nat) returns (crc: nat)
      requires ValidConfig(cfg) && n < |cfg.trigs| && dynLen < 0x100
      ensures crc == GetHeaderCrc(cfg, n, dynLen)
    {
      var trig := cfg.trigs[n];
      var slotIsKey := trig.slotId == cfg.keySlotId;
      var sync, startup := slotIsKey && cfg.keyForSync, slotIsKey && cfg.keyForStartup;
      var length := if trig.slotId > cfg.staticSlots then dynLen / 2 else cfg.payloadStatic;
      var f := Fields(sync, startup, trig.slotId, length);
      PackIsWord(f);
      crc := ComputeCrc(Pack(f));
    }

    /** The four receive shadow buffers behind the payloads. */
    method SetupShadow(z: Sizes, start: nat)
      requires Valid() && start == ShadowStart(cfg, z)
      modifies mbdo, partitionAddr
      ensures forall n | 0 <= n < |cfg.trigs| :: mbdo[n] == old(mbdo[n]) && partitionAddr[n] == old(partitionAddr[n])
      ensures forall n | |cfg.trigs| <= n < mbdo.Length ::
                mbdo[n] == Offset(cfg, z, n) && partitionAddr[n] == baseAddr + mbdo[n]
    {
      var headerIndex, sdata := |cfg.trigs|, start;
      mbdo[headerIndex], partitionAddr[headerIndex] := sdata, baseAddr + sdata;
      headerIndex, sdata := headerIndex + 1, sdata + z.p;
      mbdo[headerIndex], partitionAddr[headerIndex] := sdata, baseAddr + sdata;
      headerIndex, sdata := headerIndex + 1, sdata + z.p;
      mbdo[headerIndex], partitionAddr[headerIndex] := sdata, baseAddr + sdata;
      headerIndex, sdata := headerIndex + 1, sdata + z.a;
      mbdo[headerIndex], partitionAddr[headerIndex] := sdata, baseAddr + sdata;
    }

    /** Fr_TransmitTxLPdu; the payload copy is not modelled. */
    method TransmitTxLPdu(lpdu: nat, length: nat) returns (ok: bool)
      requires Ready() && length < 0x100
      modifies headers
      ensures Ready()
      ensures headers[..] == Transmitted(cfg, lengthSetup, old(headers[..]), lpdu, length)
      ensures ok <==> lpdu < |cfg.lpdus| && length <= cfg.trigs[cfg.lpdus[lpdu]].lsduLength % 0x100
      ensures ok && Resizable(cfg, cfg.lpdus[lpdu]) && length != lengthSetup[cfg.lpdus[lpdu]] ==>
                headers[cfg.lpdus[lpdu]].pldlen == length / 2
    {
      if lpdu >= |cfg.lpdus| {
        return false;
      }
      var trigIdx := cfg.lpdus[lpdu];
      if length > cfg.trigs[trigIdx].lsduLength % 0x100 {
        return false;
      }
      var n := bufferIdx[trigIdx];
      var trig := cfg.trigs[trigIdx];
      if trig.allowDynamicLen && trig.slotId > cfg.staticSlots && length != lengthSetup[trigIdx] {
        headers[n] := headers[n].(pldlen := (length / 2) % 0x80);
        var crc := ComputeHeaderCrc(n, length);
        headers[n] := headers[n].(hdcrc := crc % 0x800);
      }
      HalfFits(length);
      return true;
    }
  }

  // ---------------------------------------------------------------- every reachable header

  /** One request: which L-PDU, and its length in bytes. */
  datatype Request = Request(lpdu: nat, length: nat)

  /** Lengths are bytes. */
  predicate Bytewide(rs: seq<Request>) {
    forall r | r in rs :: r.length < 0x100
  }

  function SetupHeaders(cfg: Config): (hs: seq<Header>)
    ensures |hs| == |cfg.trigs|
  {
    seq(|cfg.trigs|, n requires 0 <= n < |cfg.trigs| => SetupHeader(cfg, n))
  }

  function AfterRequests(cfg: Config, lengthSetup: seq<nat>, hs: seq<Header>, rs: seq<Request>): (r: seq<Header>)
    requires ValidConfig(cfg) && |hs| == |cfg.trigs| == |lengthSetup|
    ensures |r| == |hs|
    decreases |rs|
  {
    if rs == [] then hs
    else AfterRequests(cfg, lengthSetup, Transmitted(cfg, lengthSetup, hs, rs[0].lpdu, rs[0].length), rs[1..])
  }

  /** The header word of trigger `n`: bit 19 is set for a key slot used for synchronisation, bit 18 for one
      used for startup, then eleven bits of frame id and seven of length. */
  function FrameWord(cfg: Config, n: nat, id: nat, length: nat): nat
    requires n < |cfg.trigs|
  {
    (if cfg.trigs[n].slotId == cfg.keySlotId && cfg.keyForSync then 0x8_0000 else 0)
    + (if cfg.trigs[n].slotId == cfg.keySlotId && cfg.keyForStartup then 0x4_0000 else 0)
    + 0x80 * id + length
  }

  lemma FieldsOfWord(cfg: Config, n: nat, id: nat, length: nat)
    requires n < |cfg.trigs|
    ensures FieldsCrc(Fields(SyncFlag(cfg, n), StartupFlag(cfg, n), id, length))
         == HeaderCrc(FrameWord(cfg, n, id, length))
  {
    assert Word(Fields(SyncFlag(cfg, n), StartupFlag(cfg, n), id, length)) == FrameWord(cfg, n, id, length);
  }

  /** The stored CRC is that of the configured flags and of the stored frame id and length. */
  predicate CrcMatches(cfg: Config, n: nat, h: Header)
    requires n < |cfg.trigs|
  {
    h.hdcrc == HeaderCrc(FrameWord(cfg, n, h.fid, h.pldlen))
  }

  /** What every reachable header looks like. */
  predicate HeaderInvariant(cfg: Config, n: nat, h: Header)
    requires n < |cfg.trigs|
  {
    && h.fid == cfg.trigs[n].slotId
    && if cfg.trigs[n].slotId > cfg.staticSlots then CrcMatches(cfg, n, h) else h == SetupHeader(cfg, n)
  }

  lemma CrcFits(f: Fields)
    ensures FieldsCrc(f) % 0x800 == FieldsCrc(f)
  {
    var _ := HeaderCrcIsRemainder(Word(f));
  }

  lemma SetupKeepsInvariant(cfg: Config, n: nat)
    requires ValidConfig(cfg) && n < |cfg.trigs|
    ensures HeaderInvariant(cfg, n, SetupHeader(cfg, n))
  {
    var h := SetupHeader(cfg, n);
    SetupHeaderParts(cfg, n, h);
    if cfg.trigs[n].slotId > cfg.staticSlots {
      FieldsOfWord(cfg, n, h.fid, h.pldlen);
    }
  }

  lemma ResizeKeepsInvariant(cfg: Config, n: nat, h: Header, length: nat)
    requires ValidConfig(cfg) && n < |cfg.trigs| && length < 0x100
    requires cfg.trigs[n].slotId > cfg.staticSlots && HeaderInvariant(cfg, n, h)
    ensures HeaderInvariant(cfg, n, Resized(cfg, n, h, length))
  {
    HalfFits(length);
    CrcFits(CrcFields(cfg, n, length));
    FieldsOfWord(cfg, n, h.fid, length / 2);
  }

  lemma HalfFits(length: nat)
    requires length < 0x100
    ensures (length / 2) % 0x80 == length / 2
  {
  }

  lemma RequestKeepsInvariant(cfg: Config, lengthSetup: seq<nat>, hs: seq<Header>, r: Request, n: nat)
    requires ValidConfig(cfg) && |hs| == |cfg.trigs| == |lengthSetup| && n < |hs| && r.length < 0x100
    requires HeaderInvariant(cfg, n, hs[n])
    ensures HeaderInvariant(cfg, n, Transmitted(cfg, lengthSetup, hs, r.lpdu, r.length)[n])
  {
    var h := Transmitted(cfg, lengthSetup, hs, r.lpdu, r.length)[n];
    if h != hs[n] {
      ResizeKeepsInvariant(cfg, n, hs[n], r.length);
    }
  }

  lemma {:induction false} RequestsKeepInvariant(cfg: Config, lengthSetup: seq<nat>, hs: seq<Header>,
                                                 rs: seq<Request>, n: nat)
    requires ValidConfig(cfg) && |hs| == |cfg.trigs| == |lengthSetup| && n < |hs|
    requires Bytewide(rs)
    requires HeaderInvariant(cfg, n, hs[n])
    ensures HeaderInvariant(cfg, n, AfterRequests(cfg, lengthSetup, hs, rs)[n])
    decreases |rs|
  {
    if rs != [] {
      RequestKeepsInvariant(cfg, lengthSetup, hs, rs[0], n);
      RequestsKeepInvariant(cfg, lengthSetup, Transmitted(cfg, lengthSetup, hs, rs[0].lpdu, rs[0].length), rs[1..], n);
    }
  }

  /** A header on the static payload length describes its stored length exactly if the two agree. */
  lemma StaticHeaderMatches(cfg: Config, n: nat, h: Header)
    requires ValidConfig(cfg) && n < |cfg.trigs| && cfg.trigs[n].slotId <= cfg.staticSlots
    requires h == SetupHeader(cfg, n)
    ensures CrcMatches(cfg, n, h) <==> cfg.trigs[n].lsduLength / 2 == cfg.payloadStatic
  {
    var f := CrcFields(cfg, n, 0);
    SetupHeaderParts(cfg, n, h);
    FieldsOfWord(cfg, n, h.fid, h.pldlen);
    if h.pldlen != f.length {
      LengthChangesCrc(f, h.pldlen);
    }
  }

  lemma SetupHeaderParts(cfg: Config, n: nat, h: Header)
    requires ValidConfig(cfg) && n < |cfg.trigs| && h == SetupHeader(cfg, n)
    ensures h.ppi == cfg.trigs[n].preamble && h.fid == cfg.trigs[n].slotId && h.pldlen == cfg.trigs[n].lsduLength / 2
    ensures h.hdcrc == FieldsCrc(CrcFields(cfg, n, if IsStatic(cfg, n) then 0 else cfg.trigs[n].lsduLength))
  {
    ModSmall(cfg.trigs[n].slotId, 0x800);
    HalfFits(cfg.trigs[n].lsduLength);
    CrcFits(CrcFields(cfg, n, if IsStatic(cfg, n) then 0 else cfg.trigs[n].lsduLength));
  }

  // ---------------------------------------------------------------- the stored length

  /** A request that changes the length in the header of trigger `n`: it is accepted, for this trigger, the
      trigger may have any length, and the length is not that of the setup. */
  predicate SetsLength(cfg: Config, lengthSetup: seq<nat>, r: Request, n: nat)
    requires n < |cfg.trigs| == |lengthSetup|
  {
    && r.lpdu < |cfg.lpdus| && cfg.lpdus[r.lpdu] == n && r.length <= cfg.trigs[n].lsduLength
    && cfg.trigs[n].allowDynamicLen && cfg.trigs[n].slotId > cfg.staticSlots && r.length != lengthSetup[n]
  }

  /** The length of the last such request, or `current` if there is none. */
  function LastLength(cfg: Config, lengthSetup: seq<nat>, rs: seq<Request>, n: nat, current: nat): nat
    requires n < |cfg.trigs| == |lengthSetup|
    decreases |rs|
  {
    if rs == [] then current
    else
      var next := if SetsLength(cfg, lengthSetup, rs[0], n) then rs[0].length else current;
      LastLength(cfg, lengthSetup, rs[1..], n, next)
  }

  lemma RequestLength(cfg: Config, lengthSetup: seq<nat>, hs: seq<Header>, r: Request, n: nat)
    requires ValidConfig(cfg) && |hs| == |cfg.trigs| == |lengthSetup| && n < |hs| && r.length < 0x100
    ensures var h' := Transmitted(cfg, lengthSetup, hs, r.lpdu, r.length)[n];
      h'.pldlen == (if SetsLength(cfg, lengthSetup, r, n) then r.length / 2 else hs[n].pldlen) && h'.ppi == hs[n].ppi
  {
    HalfFits(r.length);
    ModSmall(cfg.trigs[n].lsduLength, 0x100);
  }

  lemma {:induction false} StoredLength(cfg: Config, lengthSetup: seq<nat>, hs: seq<Header>, rs: seq<Request>, n: nat,
                                        current: nat)
    requires ValidConfig(cfg) && |hs| == |cfg.trigs| == |lengthSetup| && n < |hs|
    requires Bytewide(rs) && hs[n].pldlen == current / 2
    ensures var h := AfterRequests(cfg, lengthSetup, hs, rs)[n];
      h.pldlen == LastLength(cfg, lengthSetup, rs, n, current) / 2 && h.ppi == hs[n].ppi
    decreases |rs|
  {
    if rs != [] {
      RequestLength(cfg, lengthSetup, hs, rs[0], n);
      StoredLength(cfg, lengthSetup, Transmitted(cfg, lengthSetup, hs, rs[0].lpdu, rs[0].length), rs[1..], n,
                   if SetsLength(cfg, lengthSetup, rs[0], n) then rs[0].length else current);
    }
  }

  /** In every state reachable by setup and any transmissions a header has the configured preamble indicator
      and frame id, and half the length of the last transmission that sets it.  The stored CRC matches the
      stored header exactly if the slot lies above the static slots or its configured length is the static
      payload length.  In particular slot id = number of static slots is laid out as dynamic but gets the
      CRC of a static frame. */
  lemma ReachableHeaders(cfg: Config, lengthSetup: seq<nat>, rs: seq<Request>, n: nat)
    requires ValidConfig(cfg) && |lengthSetup| == |cfg.trigs| && n < |cfg.trigs|
    requires Bytewide(rs)
    ensures var h := AfterRequests(cfg, lengthSetup, SetupHeaders(cfg), rs)[n];
      && h.ppi == cfg.trigs[n].preamble && h.fid == cfg.trigs[n].slotId
      && h.pldlen == LastLength(cfg, lengthSetup, rs, n, cfg.trigs[n].lsduLength) / 2
      && (h.hdcrc == HeaderCrc(FrameWord(cfg, n, h.fid, h.pldlen)) <==>
            cfg.trigs[n].slotId > cfg.staticSlots || cfg.trigs[n].lsduLength / 2 == cfg.payloadStatic)
  {
    SetupKeepsInvariant(cfg, n);
    SetupHeaderParts(cfg, n, SetupHeader(cfg, n));
    RequestsKeepInvariant(cfg, lengthSetup, SetupHeaders(cfg), rs, n);
    StoredLength(cfg, lengthSetup, SetupHeaders(cfg), rs, n, cfg.trigs[n].lsduLength);
    if cfg.trigs[n].slotId <= cfg.staticSlots {
      StaticHeaderMatches(cfg, n, SetupHeader(cfg, n));
    }
  }

  /** Such a header has the CRC of the static payload length. */
  lemma StaticHeaderCrc(cfg: Config, lengthSetup: seq<nat>, rs: seq<Request>, n: nat)
    requires ValidConfig(cfg) && |lengthSetup| == |cfg.trigs| && n < |cfg.trigs|
    requires cfg.trigs[n].slotId <= cfg.staticSlots
    requires Bytewide(rs)
    ensures AfterRequests(cfg, lengthSetup, SetupHeaders(cfg), rs)[n].hdcrc
         == HeaderCrc(FrameWord(cfg, n, cfg.trigs[n].slotId, cfg.payloadStatic))
  {
    SetupKeepsInvariant(cfg, n);
    SetupHeaderParts(cfg, n, SetupHeader(cfg, n));
    RequestsKeepInvariant(cfg, lengthSetup, SetupHeaders(cfg), rs, n);
    FieldsOfWord(cfg, n, cfg.trigs[n].slotId, cfg.payloadStatic);
  }

  // ---------------------------------------------------------------- a frame and its header

  /** After the history `rs` a frame of this length leaves with a header of this length. */
  predicate RightAfter(cfg: Config, lengthSetup: seq<nat>, rs: seq<Request>, lpdu: nat, length: nat)
    requires ValidConfig(cfg) && |lengthSetup| == |cfg.trigs| && lpdu < |cfg.lpdus|
  {
    var hs := AfterRequests(cfg, lengthSetup, SetupHeaders(cfg), rs + [Request(lpdu, length)]);
    hs[cfg.lpdus[lpdu]].pldlen == length / 2
  }

  /** Whatever was sent before, it does. */
  ghost predicate SentAsSaid(cfg: Config, lengthSetup: seq<nat>, lpdu: nat, length: nat)
    requires ValidConfig(cfg) && |lengthSetup| == |cfg.trigs| && lpdu < |cfg.lpdus|
  {
    forall rs: seq<Request> | Bytewide(rs) :: RightAfter(cfg, lengthSetup, rs, lpdu, length)
  }

  lemma {:induction false} LastLengthAppend(cfg: Config, lengthSetup: seq<nat>, rs: seq<Request>, r: Request, n: nat,
                                            current: nat)
    requires n < |cfg.trigs| == |lengthSetup|
    ensures LastLength(cfg, lengthSetup, rs + [r], n, current)
         == if SetsLength(cfg, lengthSetup, r, n) then r.length else LastLength(cfg, lengthSetup, rs, n, current)
    decreases |rs|
  {
    if rs == [] {
      assert rs + [r] == [r] && [r][1..] == [];
    } else {
      assert (rs + [r])[1..] == rs[1..] + [r];
      LastLengthAppend(cfg, lengthSetup, rs[1..], r, n,
                       if SetsLength(cfg, lengthSetup, rs[0], n) then rs[0].length else current);
    }
  }

  /** The length in the header after a run and one more request. */
  lemma RightExactly(cfg: Config, lengthSetup: seq<nat>, rs: seq<Request>, lpdu: nat, length: nat)
    requires ValidConfig(cfg) && |lengthSetup| == |cfg.trigs| && lpdu < |cfg.lpdus| && length < 0x100 && Bytewide(rs)
    ensures var n := cfg.lpdus[lpdu];
      RightAfter(cfg, lengthSetup, rs, lpdu, length) <==>
        || SetsLength(cfg, lengthSetup, Request(lpdu, length), n)
        || LastLength(cfg, lengthSetup, rs, n, cfg.trigs[n].lsduLength) / 2 == length / 2
  {
    var n, r := cfg.lpdus[lpdu], Request(lpdu, length);
    ReachableHeaders(cfg, lengthSetup, rs + [r], n);
    LastLengthAppend(cfg, lengthSetup, rs, r, n, cfg.trigs[n].lsduLength);
  }

  /** The setup length is never updated, so a frame of exactly that length keeps whatever length the header
      has from an earlier frame.  For a resizable trigger and an accepted length, the header is right in all
      runs exactly if the length is not that of the setup, or the trigger is too short for any other. */
  lemma SentAsSaidExactly(cfg: Config, lengthSetup: seq<nat>, lpdu: nat, length: nat)
    requires ValidConfig(cfg) && |lengthSetup| == |cfg.trigs| && lpdu < |cfg.lpdus|
    requires var n := cfg.lpdus[lpdu]; Resizable(cfg, n) && length <= cfg.trigs[n].lsduLength
    ensures var n := cfg.lpdus[lpdu];
      SentAsSaid(cfg, lengthSetup, lpdu, length) <==> length != lengthSetup[n] || cfg.trigs[n].lsduLength < 2
  {
    var n := cfg.lpdus[lpdu];
    if length == lengthSetup[n] && cfg.trigs[n].lsduLength >= 2 {
      var rs := WrongAfter(cfg, lengthSetup, lpdu, length);
    } else {
      forall rs: seq<Request> | Bytewide(rs)
        ensures RightAfter(cfg, lengthSetup, rs, lpdu, length)
      {
        AlwaysRight(cfg, lengthSetup, rs, lpdu, length);
      }
    }
  }

  lemma AlwaysRight(cfg: Config, lengthSetup: seq<nat>, rs: seq<Request>, lpdu: nat, length: nat)
    requires ValidConfig(cfg) && |lengthSetup| == |cfg.trigs| && lpdu < |cfg.lpdus| && Bytewide(rs)
    requires var n := cfg.lpdus[lpdu];
      && Resizable(cfg, n) && length <= cfg.trigs[n].lsduLength
      && (length != lengthSetup[n] || cfg.trigs[n].lsduLength < 2)
    ensures RightAfter(cfg, lengthSetup, rs, lpdu, length)
  {
    var n := cfg.lpdus[lpdu];
    RightExactly(cfg, lengthSetup, rs, lpdu, length);
    if length == lengthSetup[n] {
      LastIsShort(cfg, lengthSetup, rs, n, cfg.trigs[n].lsduLength);
      HalfOfShort(length, LastLength(cfg, lengthSetup, rs, n, cfg.trigs[n].lsduLength));
    } else {
      assert SetsLength(cfg, lengthSetup, Request(lpdu, length), n);
    }
  }

  lemma HalfOfShort(a: nat, b: nat)
    requires a < 2 && b < 2
    ensures a / 2 == b / 2
  {
  }

  /** The stored length never exceeds the configured one. */
  lemma {:induction false} LastIsShort(cfg: Config, lengthSetup: seq<nat>, rs: seq<Request>, n: nat, current: nat)
    requires n < |cfg.trigs| == |lengthSetup| && current <= cfg.trigs[n].lsduLength
    ensures LastLength(cfg, lengthSetup, rs, n, current) <= cfg.trigs[n].lsduLength
    decreases |rs|
  {
    if rs != [] {
      var next := if SetsLength(cfg, lengthSetup, rs[0], n) then rs[0].length else current;
      LastIsShort(cfg, lengthSetup, rs[1..], n, next);
    }
  }

  lemma WrongAfter(cfg: Config, lengthSetup: seq<nat>, lpdu: nat, length: nat) returns (rs: seq<Request>)
    requires ValidConfig(cfg) && |lengthSetup| == |cfg.trigs| && lpdu < |cfg.lpdus|
    requires var n := cfg.lpdus[lpdu];
      Resizable(cfg, n) && length == lengthSetup[n] && length <= cfg.trigs[n].lsduLength && cfg.trigs[n].lsduLength >= 2
    ensures Bytewide(rs) && !RightAfter(cfg, lengthSetup, rs, lpdu, length)
  {
    rs := OtherHistory(cfg, lengthSetup, lpdu, length);
    RightExactly(cfg, lengthSetup, rs, lpdu, length);
  }

  /** A history after which the stored length is not that of the setup: none, or one empty frame. */
  lemma OtherHistory(cfg: Config, lengthSetup: seq<nat>, lpdu: nat, length: nat) returns (rs: seq<Request>)
    requires ValidConfig(cfg) && |lengthSetup| == |cfg.trigs| && lpdu < |cfg.lpdus|
    requires var n := cfg.lpdus[lpdu];
      Resizable(cfg, n) && length == lengthSetup[n] && length <= cfg.trigs[n].lsduLength && cfg.trigs[n].lsduLength >= 2
    ensures Bytewide(rs)
    ensures var n := cfg.lpdus[lpdu];
      LastLength(cfg, lengthSetup, rs, n, cfg.trigs[n].lsduLength) / 2 != length / 2
  {
    var n := cfg.lpdus[lpdu];
    if length < 2 {
      rs := [];
    } else {
      var r := Request(lpdu, 0);
      rs := [r];
      assert [] + [r] == rs;
      LastLengthAppend(cfg, lengthSetup, [], r, n, cfg.trigs[n].lsduLength);
    }
  }
}
