/** The message RAM: header table, static payloads, dynamic payloads, shadow payloads. */
module FlexRayLayout {
  import opened Arith

  datatype Trigger = Trigger(slotId: nat, lsduLength: nat, preamble: bool, allowDynamicLen: bool)

  /** The configuration of one controller.  `declaredStatic` is FrNbrTrigStatic, `staticSlots` is
      FrClusterGNumberOfStaticSlots; payload lengths are counted in 16-bit words. */
  datatype Config = Config(
    trigs: seq<Trigger>, declaredStatic: nat, staticSlots: nat,
    payloadStatic: nat, payloadDynMax: nat,
    keySlotId: nat, keyForSync: bool, keyForStartup: bool, lpdus: seq<nat>)

  const SHADOW_BUFFER_CNT := 4

  function Align8(x: nat): nat {
    ((x + 7) / 8) * 8
  }

  /** The least multiple of eight that is not below `x`. */
  lemma Align8IsLeast(x: nat, m: nat)
    ensures Align8(x) % 8 == 0 && x <= Align8(x)
    ensures m % 8 == 0 && x <= m ==> Align8(x) <= m
  {
    var q := (x + 7) / 8;
    assert 8 * q <= x + 7 < 8 * q + 8 && Align8(x) == 8 * q;
    DivModUnique(8 * q, 8, q, 0);
    if m % 8 == 0 && x <= m {
      LeastMultiple(x, q, m / 8);
    }
  }

  lemma LeastMultiple(x: nat, q: nat, k: nat)
    requires 8 * q <= x + 7 && x <= 8 * k
    ensures q <= k
  {
  }

  predicate SlotIsStatic(cfg: Config, slotId: nat) {
    slotId < cfg.staticSlots
  }

  predicate IsStatic(cfg: Config, n: nat)
    requires n < |cfg.trigs|
  {
    SlotIsStatic(cfg, cfg.trigs[n].slotId)
  }

  /** Static triggers among the first `n`. */
  function StaticBefore(cfg: Config, n: nat): (c: nat)
    requires n <= |cfg.trigs|
    ensures c <= n
  {
    if n == 0 then 0 else StaticBefore(cfg, n - 1) + if IsStatic(cfg, n - 1) then 1 else 0
  }

  function HdrSize(cfg: Config): nat {
    (|cfg.trigs| + SHADOW_BUFFER_CNT) * 8
  }

  /** Bytes of a static payload, bytes reserved for a dynamic payload, and bytes of it that are used. */
  datatype Sizes = Sizes(p: nat, a: nat, d: nat)

  function SizesOf(cfg: Config): Sizes {
    Sizes(cfg.payloadStatic * 2, Align8(cfg.payloadDynMax) * 2, cfg.payloadDynMax * 2)
  }

  function Seg1Size(cfg: Config, z: Sizes): nat {
    Span(cfg.declaredStatic, z.p)
  }

  function Seg2Size(cfg: Config, z: Sizes): nat
    requires cfg.declaredStatic <= |cfg.trigs|
  {
    Span(|cfg.trigs| - cfg.declaredStatic, z.a)
  }

  function ShadowStart(cfg: Config, z: Sizes): nat
    requires cfg.declaredStatic <= |cfg.trigs|
  {
    HdrSize(cfg) + Seg1Size(cfg, z) + Seg2Size(cfg, z)
  }

  /** Where the payload of trigger `n` starts. */
  function PayloadOffset(cfg: Config, z: Sizes, n: nat): nat
    requires n < |cfg.trigs|
  {
    if IsStatic(cfg, n) then HdrSize(cfg) + Span(StaticBefore(cfg, n), z.p)
    else HdrSize(cfg) + Seg1Size(cfg, z) + Span(n - StaticBefore(cfg, n), z.a)
  }

  function PayloadBytes(cfg: Config, z: Sizes, n: nat): nat
    requires n < |cfg.trigs|
  {
    if IsStatic(cfg, n) then z.p else z.d
  }

  /** Where buffer `n` starts; the last four are the shadow buffers. */
  function Offset(cfg: Config, z: Sizes, n: nat): nat
    requires n < |cfg.trigs| + SHADOW_BUFFER_CNT && cfg.declaredStatic <= |cfg.trigs|
  {
    if n < |cfg.trigs| then PayloadOffset(cfg, z, n)
    else ShadowStart(cfg, z) + match n - |cfg.trigs| case 0 => 0 case 1 => z.p case 2 => 2 * z.p case _ => 2 * z.p + z.a
  }

  function Bytes(cfg: Config, z: Sizes, n: nat): nat
    requires n < |cfg.trigs| + SHADOW_BUFFER_CNT
  {
    if n < |cfg.trigs| then PayloadBytes(cfg, z, n) else if n - |cfg.trigs| < 2 then z.p else z.d
  }

  function End(cfg: Config, z: Sizes): nat
    requires cfg.declaredStatic <= |cfg.trigs|
  {
    ShadowStart(cfg, z) + 2 * z.p + 2 * z.a
  }

  /** Two byte ranges, of which either may be empty. */
  predicate NoSharedByte(o1: nat, n1: nat, o2: nat, n2: nat) {
    n1 == 0 || n2 == 0 || o1 + n1 <= o2 || o2 + n2 <= o1
  }

  predicate Apart(cfg: Config, z: Sizes, n: nat, m: nat)
    requires n < |cfg.trigs| + SHADOW_BUFFER_CNT && m < |cfg.trigs| + SHADOW_BUFFER_CNT
    requires cfg.declaredStatic <= |cfg.trigs|
  {
    NoSharedByte(Offset(cfg, z, n), Bytes(cfg, z, n), Offset(cfg, z, m), Bytes(cfg, z, m))
  }

  /** Header table, payload and shadow regions are pairwise disjoint and end at `End`. */
  ghost predicate Disjoint(cfg: Config, z: Sizes)
    requires cfg.declaredStatic <= |cfg.trigs|
  {
    && (forall n: nat | n < |cfg.trigs| + SHADOW_BUFFER_CNT ::
          HdrSize(cfg) <= Offset(cfg, z, n) && Offset(cfg, z, n) + Bytes(cfg, z, n) <= End(cfg, z))
    && forall n: nat, m: nat | n < m < |cfg.trigs| + SHADOW_BUFFER_CNT :: Apart(cfg, z, n, m)
  }

  /** There are not more static triggers than declared, or the room reserved for dynamic payloads holds the
      extra static ones and there is no dynamic trigger at all; and there are not fewer than declared.  Either
      half is void if payloads of its kind are empty. */
  predicate Consistent(cfg: Config, z: Sizes) {
    var s := StaticBefore(cfg, |cfg.trigs|);
    && (z.p == 0 || s <= cfg.declaredStatic || (s == |cfg.trigs| && z.p <= z.a))
    && (z.d == 0 || s >= cfg.declaredStatic)
  }

  /** An aligned payload has room for what is used of it, and none for nothing. */
  predicate Aligned(z: Sizes) {
    z.d <= z.a && (z.d == 0 ==> z.a == 0)
  }

  /** Counters at a later trigger. */
  lemma {:induction false} StaticMonotone(cfg: Config, n: nat, m: nat)
    requires n < m <= |cfg.trigs|
    ensures StaticBefore(cfg, n) + (if IsStatic(cfg, n) then 1 else 0) <= StaticBefore(cfg, m)
    ensures n - StaticBefore(cfg, n) + (if IsStatic(cfg, n) then 0 else 1) <= m - StaticBefore(cfg, m)
    decreases m
  {
    if n + 1 < m {
      StaticMonotone(cfg, n, m - 1);
    }
  }

  /** Regions of the same kind follow each other. */
  lemma SameKindApart(cfg: Config, z: Sizes, n: nat, m: nat)
    requires n < m < |cfg.trigs| && cfg.declaredStatic <= |cfg.trigs| && z.d <= z.a
    requires IsStatic(cfg, n) == IsStatic(cfg, m)
    ensures PayloadOffset(cfg, z, n) + PayloadBytes(cfg, z, n) <= PayloadOffset(cfg, z, m)
  {
    StaticMonotone(cfg, n, m);
    if IsStatic(cfg, n) {
      SpanApart(StaticBefore(cfg, n), StaticBefore(cfg, m), z.p);
    } else {
      SpanApart(n - StaticBefore(cfg, n), m - StaticBefore(cfg, m), z.a);
    }
  }

  /** A static payload stays in segment 1, or at least ahead of the shadow buffers. */
  lemma StaticInSegment(cfg: Config, z: Sizes, n: nat)
    requires n < |cfg.trigs| && cfg.declaredStatic <= |cfg.trigs| && Consistent(cfg, z) && IsStatic(cfg, n) && z.p > 0
    ensures PayloadOffset(cfg, z, n) + z.p <= ShadowStart(cfg, z)
    ensures StaticBefore(cfg, |cfg.trigs|) <= cfg.declaredStatic ==>
              PayloadOffset(cfg, z, n) + z.p <= HdrSize(cfg) + Seg1Size(cfg, z)
  {
    var s := StaticBefore(cfg, |cfg.trigs|);
    StaticMonotone(cfg, n, |cfg.trigs|);
    SpanApart(StaticBefore(cfg, n), s, z.p);
    if s <= cfg.declaredStatic {
      SpanMonotone(s, cfg.declaredStatic, z.p);
    } else {
      StaticFillsRoom(cfg.declaredStatic, s, z.p, z.a);
    }
  }

  lemma {:induction false} SpanMonotone(k: nat, l: nat, size: nat)
    requires k <= l
    ensures Span(k, size) <= Span(l, size)
  {
    if k < l {
      SpanApart(k, l, size);
    }
  }

  lemma {:induction false} StaticFillsRoom(decl: nat, s: nat, p: nat, a: nat)
    requires decl <= s && p <= a
    ensures Span(s, p) <= Span(decl, p) + Span(s - decl, a)
  {
    if decl < s {
      StaticFillsRoom(decl, s - 1, p, a);
    }
  }

  /** A dynamic payload stays in segment 2. */
  lemma DynamicInSegment(cfg: Config, z: Sizes, n: nat)
    requires n < |cfg.trigs| && cfg.declaredStatic <= |cfg.trigs| && Consistent(cfg, z) && !IsStatic(cfg, n) && z.d > 0
    ensures z.p > 0 ==> StaticBefore(cfg, |cfg.trigs|) == cfg.declaredStatic
    ensures HdrSize(cfg) + Seg1Size(cfg, z) <= PayloadOffset(cfg, z, n)
    ensures PayloadOffset(cfg, z, n) + z.a <= ShadowStart(cfg, z)
  {
    var total, s := |cfg.trigs|, StaticBefore(cfg, |cfg.trigs|);
    StaticMonotone(cfg, n, total);
    SpanApart(n - StaticBefore(cfg, n), total - cfg.declaredStatic, z.a);
  }

  lemma PayloadsApart(cfg: Config, z: Sizes, n: nat, m: nat)
    requires n < m < |cfg.trigs| && cfg.declaredStatic <= |cfg.trigs| && Consistent(cfg, z) && Aligned(z)
    ensures Apart(cfg, z, n, m)
  {
    if IsStatic(cfg, n) == IsStatic(cfg, m) {
      SameKindApart(cfg, z, n, m);
    } else if z.p > 0 && z.d > 0 {
      if IsStatic(cfg, n) {
        StaticInSegment(cfg, z, n);
        DynamicInSegment(cfg, z, m);
      } else {
        DynamicInSegment(cfg, z, n);
        StaticInSegment(cfg, z, m);
      }
    }
  }

  lemma PayloadInRange(cfg: Config, z: Sizes, n: nat)
    requires n < |cfg.trigs| && cfg.declaredStatic <= |cfg.trigs| && Consistent(cfg, z) && Aligned(z)
    ensures HdrSize(cfg) <= PayloadOffset(cfg, z, n)
    ensures PayloadOffset(cfg, z, n) + PayloadBytes(cfg, z, n) <= ShadowStart(cfg, z)
  {
    if IsStatic(cfg, n) {
      if z.p > 0 { StaticInSegment(cfg, z, n); } else { SpanIsProduct(StaticBefore(cfg, n), 0); }
    } else {
      if z.d > 0 { DynamicInSegment(cfg, z, n); } else { SpanIsProduct(n - StaticBefore(cfg, n), 0); }
    }
  }

  lemma ConsistentIsDisjoint(cfg: Config, z: Sizes)
    requires cfg.declaredStatic <= |cfg.trigs| && Consistent(cfg, z) && Aligned(z)
    ensures Disjoint(cfg, z)
  {
    var total := |cfg.trigs|;
    forall n: nat | n < total + SHADOW_BUFFER_CNT
      ensures HdrSize(cfg) <= Offset(cfg, z, n) && Offset(cfg, z, n) + Bytes(cfg, z, n) <= End(cfg, z)
    {
      if n < total { PayloadInRange(cfg, z, n); }
    }
    forall n: nat, m: nat | n < m < total + SHADOW_BUFFER_CNT
      ensures Apart(cfg, z, n, m)
    {
      if m < total {
        PayloadsApart(cfg, z, n, m);
      } else if n < total {
        PayloadInRange(cfg, z, n);
      }
    }
  }

  /** The trigger that is static number `k`, or dynamic number `k`. */
  lemma {:induction false} FindStatic(cfg: Config, m: nat, k: nat) returns (n: nat)
    requires m <= |cfg.trigs| && k < StaticBefore(cfg, m)
    ensures n < m && IsStatic(cfg, n) && StaticBefore(cfg, n) == k
  {
    if k < StaticBefore(cfg, m - 1) {
      n := FindStatic(cfg, m - 1, k);
    } else {
      n := m - 1;
    }
  }

  lemma {:induction false} FindDynamic(cfg: Config, m: nat, k: nat) returns (n: nat)
    requires m <= |cfg.trigs| && k < m - StaticBefore(cfg, m)
    ensures n < m && !IsStatic(cfg, n) && n - StaticBefore(cfg, n) == k
  {
    if k < m - 1 - StaticBefore(cfg, m - 1) {
      n := FindDynamic(cfg, m - 1, k);
    } else {
      n := m - 1;
    }
  }

  /** Room for fewer than `total` regions of `p` bytes ends inside one of them. */
  lemma {:induction false} RegionAcross(total: nat, p: nat, room: nat) returns (k: nat)
    requires room < Span(total, p)
    ensures k < total && Span(k, p) <= room < Span(k, p) + p
  {
    if Span(total - 1, p) <= room {
      k := total - 1;
    } else {
      k := RegionAcross(total - 1, p, room);
    }
  }

  lemma {:induction false} RoomTooSmall(decl: nat, total: nat, p: nat, a: nat)
    requires decl < total && a < p
    ensures Span(decl, p) + Span(total - decl, a) < Span(total, p)
  {
    if decl + 1 < total {
      RoomTooSmall(decl, total - 1, p, a);
    }
  }

  /** Only static triggers, more than declared: one of them covers the start of the shadow buffers. */
  lemma AllStaticOverflow(cfg: Config, z: Sizes) returns (n: nat)
    requires StaticBefore(cfg, |cfg.trigs|) == |cfg.trigs| && cfg.declaredStatic < |cfg.trigs| && z.a < z.p
    ensures n < |cfg.trigs| && !Apart(cfg, z, n, |cfg.trigs|)
  {
    var total := |cfg.trigs|;
    RoomTooSmall(cfg.declaredStatic, total, z.p, z.a);
    var k := RegionAcross(total, z.p, Seg1Size(cfg, z) + Seg2Size(cfg, z));
    n := FindStatic(cfg, total, k);
  }

  /** Fewer static triggers than declared: a dynamic payload starts where the shadow buffers start. */
  lemma DynamicOverflow(cfg: Config, z: Sizes) returns (n: nat, m: nat)
    requires cfg.declaredStatic <= |cfg.trigs| && StaticBefore(cfg, |cfg.trigs|) < cfg.declaredStatic && z.d > 0
    ensures n < |cfg.trigs| <= m < |cfg.trigs| + SHADOW_BUFFER_CNT && !Apart(cfg, z, n, m)
  {
    var total := |cfg.trigs|;
    n := FindDynamic(cfg, total, total - cfg.declaredStatic);
    m := if z.p > 0 then total else total + 2;
  }

  /** More static triggers than declared, and dynamic ones: the first static one too many starts where the
      dynamic payloads start, or the shadow buffers if those are empty. */
  lemma StaticOverflow(cfg: Config, z: Sizes) returns (n: nat, m: nat)
    requires cfg.declaredStatic < StaticBefore(cfg, |cfg.trigs|) < |cfg.trigs| && z.p > 0 && Aligned(z)
    ensures n < |cfg.trigs| && m < |cfg.trigs| + SHADOW_BUFFER_CNT && n != m
    ensures if n < m then !Apart(cfg, z, n, m) else !Apart(cfg, z, m, n)
  {
    var total := |cfg.trigs|;
    n := FindStatic(cfg, total, cfg.declaredStatic);
    if z.d > 0 {
      m := FindDynamic(cfg, total, 0);
    } else {
      m := total;
      SpanIsProduct(total - cfg.declaredStatic, 0);
    }
  }

  /** Any other configuration has two regions that share a byte. */
  lemma InconsistentOverlaps(cfg: Config, z: Sizes) returns (n: nat, m: nat)
    requires cfg.declaredStatic <= |cfg.trigs| && !Consistent(cfg, z) && Aligned(z)
    ensures n < |cfg.trigs| + SHADOW_BUFFER_CNT && m < |cfg.trigs| + SHADOW_BUFFER_CNT && n != m
    ensures if n < m then !Apart(cfg, z, n, m) else !Apart(cfg, z, m, n)
  {
    var total, s := |cfg.trigs|, StaticBefore(cfg, |cfg.trigs|);
    if s < cfg.declaredStatic {
      n, m := DynamicOverflow(cfg, z);
    } else if s < total {
      n, m := StaticOverflow(cfg, z);
    } else {
      n := AllStaticOverflow(cfg, z);
      m := total;
    }
  }

  // ---------------------------------------------------------------- in terms of the configuration

  /** The triggers before `n` whose slot id lies below the number of static slots. */
  function StaticIds(cfg: Config, n: nat): set<nat>
    requires n <= |cfg.trigs|
  {
    set i: nat | i < n && cfg.trigs[i].slotId < cfg.staticSlots
  }

  lemma {:induction false} StaticIdsCount(cfg: Config, n: nat)
    requires n <= |cfg.trigs|
    ensures StaticBefore(cfg, n) == |StaticIds(cfg, n)|
  {
    if n > 0 {
      StaticIdsCount(cfg, n - 1);
      var before := StaticIds(cfg, n - 1);
      assert StaticIds(cfg, n) == if cfg.trigs[n - 1].slotId < cfg.staticSlots then before + {n - 1} else before;
    }
  }

  /** The data offset of every message buffer after setup. */
  function DataOffsets(cfg: Config): (ms: seq<nat>)
    requires cfg.declaredStatic <= |cfg.trigs|
    ensures |ms| == |cfg.trigs| + SHADOW_BUFFER_CNT
  {
    seq(|cfg.trigs| + SHADOW_BUFFER_CNT, n requires 0 <= n < |cfg.trigs| + SHADOW_BUFFER_CNT =>
      Offset(cfg, SizesOf(cfg), n))
  }

  /** Where the payload of a trigger starts: behind the headers and the static payloads before it, or
      behind all declared static payloads and the dynamic ones before it. */
  lemma OffsetOfTrigger(cfg: Config, n: nat)
    requires cfg.declaredStatic <= |cfg.trigs| && n < |cfg.trigs|
    ensures var s, hdr := |StaticIds(cfg, n)|, (|cfg.trigs| + 4) * 8;
      DataOffsets(cfg)[n] ==
        if cfg.trigs[n].slotId < cfg.staticSlots then hdr + s * (2 * cfg.payloadStatic)
        else hdr + cfg.declaredStatic * (2 * cfg.payloadStatic) + (n - s) * (2 * Align8(cfg.payloadDynMax))
  {
    StaticIdsCount(cfg, n);
    SpanIsProduct(StaticBefore(cfg, n), 2 * cfg.payloadStatic);
    SpanIsProduct(cfg.declaredStatic, 2 * cfg.payloadStatic);
    SpanIsProduct(n - StaticBefore(cfg, n), 2 * Align8(cfg.payloadDynMax));
  }

  /** Payloads are counted in words of two bytes: what buffer `n` may hold. */
  function UsedBytes(cfg: Config, n: nat): nat
    requires n < |cfg.trigs| + 4
  {
    if n < |cfg.trigs| then
      if cfg.trigs[n].slotId < cfg.staticSlots then 2 * cfg.payloadStatic else 2 * cfg.payloadDynMax
    else if n < |cfg.trigs| + 2 then 2 * cfg.payloadStatic else 2 * cfg.payloadDynMax
  }

  /** The bytes [offset, offset + used) of all buffers lie behind the header table of eight bytes for each
      buffer and before `end`, and no two share a byte. */
  ghost predicate ApartInRam(cfg: Config, offsets: seq<nat>, end: nat) {
    && |offsets| == |cfg.trigs| + 4
    && (forall n | 0 <= n < |offsets| ::
          (|cfg.trigs| + 4) * 8 <= offsets[n] && offsets[n] + UsedBytes(cfg, n) <= end)
    && forall n, m | 0 <= n < m < |offsets| ::
         NoSharedByte(offsets[n], UsedBytes(cfg, n), offsets[m], UsedBytes(cfg, m))
  }

  /** Headers, declared static payloads, the other payloads, and two shadow payloads of each kind. */
  function RamEnd(cfg: Config): nat
    requires cfg.declaredStatic <= |cfg.trigs|
  {
    (|cfg.trigs| + 4) * 8 + cfg.declaredStatic * (2 * cfg.payloadStatic)
    + (|cfg.trigs| - cfg.declaredStatic) * (2 * Align8(cfg.payloadDynMax))
    + 4 * cfg.payloadStatic + 4 * Align8(cfg.payloadDynMax)
  }

  /** As many triggers have a slot id below the static slots as are declared static; or all have, and the
      room of an aligned dynamic payload is enough for a static one.  If payloads of one kind have no bytes,
      only the others have to find room. */
  predicate DeclaredRight(cfg: Config) {
    var s := |StaticIds(cfg, |cfg.trigs|)|;
    && (cfg.payloadStatic == 0 || s <= cfg.declaredStatic
        || (s == |cfg.trigs| && cfg.payloadStatic <= Align8(cfg.payloadDynMax)))
    && (cfg.payloadDynMax == 0 || s >= cfg.declaredStatic)
  }

  lemma EndIsRamEnd(cfg: Config)
    requires cfg.declaredStatic <= |cfg.trigs|
    ensures End(cfg, SizesOf(cfg)) == RamEnd(cfg)
  {
    SpanIsProduct(cfg.declaredStatic, 2 * cfg.payloadStatic);
    SpanIsProduct(|cfg.trigs| - cfg.declaredStatic, 2 * Align8(cfg.payloadDynMax));
  }

  lemma DisjointIsApart(cfg: Config)
    requires cfg.declaredStatic <= |cfg.trigs|
    ensures Disjoint(cfg, SizesOf(cfg)) <==> ApartInRam(cfg, DataOffsets(cfg), RamEnd(cfg))
  {
    var z, ms := SizesOf(cfg), DataOffsets(cfg);
    EndIsRamEnd(cfg);
    assert forall n | 0 <= n < |ms| :: ms[n] == Offset(cfg, z, n) && Bytes(cfg, z, n) == UsedBytes(cfg, n);
    if ApartInRam(cfg, ms, RamEnd(cfg)) {
      forall n: nat | n < |ms|
        ensures HdrSize(cfg) <= Offset(cfg, z, n) && Offset(cfg, z, n) + Bytes(cfg, z, n) <= End(cfg, z)
      {
        assert ms[n] == Offset(cfg, z, n);
      }
      forall n: nat, m: nat | n < m < |ms|
        ensures Apart(cfg, z, n, m)
      {
        assert ms[n] == Offset(cfg, z, n) && ms[m] == Offset(cfg, z, m);
      }
    }
    if Disjoint(cfg, z) {
      forall n, m | 0 <= n < m < |ms|
        ensures NoSharedByte(ms[n], UsedBytes(cfg, n), ms[m], UsedBytes(cfg, m))
      {
        assert Apart(cfg, z, n, m);
      }
    }
  }

  /** No two message buffers share a byte of message RAM exactly if the declared number of static triggers
      is right. */
  lemma DisjointExactly(cfg: Config)
    requires cfg.declaredStatic <= |cfg.trigs|
    ensures ApartInRam(cfg, DataOffsets(cfg), RamEnd(cfg)) <==> DeclaredRight(cfg)
  {
    var z := SizesOf(cfg);
    Align8IsLeast(cfg.payloadDynMax, 0);
    StaticIdsCount(cfg, |cfg.trigs|);
    DisjointIsApart(cfg);
    if Consistent(cfg, z) {
      ConsistentIsDisjoint(cfg, z);
    } else {
      var n, m := InconsistentOverlaps(cfg, z);
    }
  }
}
