/**
  Where the tables go: an aligned bump allocator over tables whose contents
  are known, and the three tables whose contents are the addresses.
 */
module Layout {
  import opened Results
  import opened AcpiErrors
  import opened Bytes
  import opened Sdt
  import opened Config
  import Fadt
  import Xsdt
  import Dsdt

  /** A table at its guest physical address, built or read back. */
  datatype PlacedTable = PlacedTable(signature: seq<byte>, gpa: u64, bytes: seq<byte>)

  datatype PartsRaw = Parts(conduit: PsciConduit, dsdt: seq<byte>, signatures: seq<Signature>, leaves: seq<seq<byte>>)

  /** Everything in a table set that does not depend on addresses. */
  type Parts = p: PartsRaw | |p.signatures| == |p.leaves| <= 6 witness Parts(Hvc, [], [], [])

  // ----- offsets -----

  function AlignUp(x: nat): (r: nat)
    ensures x <= r < x + 8 && r % 8 == 0
  {
    (x + 7) / 8 * 8
  }

  /** Where table `i` starts, from the region base. */
  function OffsetAt(lens: seq<nat>, i: nat): (r: nat)
    requires i < |lens|
    ensures r % 8 == 0
  {
    if i == 0 then 0 else AlignUp(OffsetAt(lens, i - 1) + lens[i - 1])
  }

  function TotalOf(lens: seq<nat>): (r: nat)
    requires |lens| > 0
  {
    OffsetAt(lens, |lens| - 1) + lens[|lens| - 1]
  }

  lemma {:induction false} OffsetsOrdered(lens: seq<nat>, i: nat, j: nat)
    requires i < j < |lens|
    ensures OffsetAt(lens, i) + lens[i] <= OffsetAt(lens, j)
    decreases j
  {
    if i < j - 1 {
      OffsetsOrdered(lens, i, j - 1);
    }
  }

  lemma OffsetsInside(lens: seq<nat>, i: nat)
    requires i < |lens|
    ensures OffsetAt(lens, i) + lens[i] <= TotalOf(lens)
  {
    if i < |lens| - 1 {
      OffsetsOrdered(lens, i, |lens| - 1);
    }
  }

  // ----- a laid-out table set -----

  function Count(p: Parts): (n: nat) {
    4 + |p.leaves|
  }

  function Lens(p: Parts): (r: seq<nat>)
    ensures |r| == Count(p)
    ensures r[0] == RSDP_LEN && r[1] == HEADER_LEN + 8 * (1 + |p.leaves|) && r[2] == Fadt.FADT_LEN && r[3] == |p.dsdt|
    ensures forall i :: 4 <= i < |r| ==> r[i] == |p.leaves[i - 4]|
  {
    [RSDP_LEN, HEADER_LEN + 8 * (1 + |p.leaves|), Fadt.FADT_LEN, |p.dsdt|]
    + seq(|p.leaves|, i requires 0 <= i < |p.leaves| => |p.leaves[i]|)
  }

  /** Offset of table `i`: it does not mention the base. */
  function Offset(p: Parts, i: nat): (r: nat)
    requires i < Count(p)
    ensures r % 8 == 0
  {
    OffsetAt(Lens(p), i)
  }

  function Total(p: Parts): (r: nat) {
    TotalOf(Lens(p))
  }

  predicate Fits(p: Parts, base: u64) {
    base + Total(p) < U64
  }

  function Gpa(p: Parts, base: u64, i: nat): (r: u64)
    requires Fits(p, base) && i < Count(p)
    ensures r == base + Offset(p, i)
  {
    OffsetsInside(Lens(p), i);
    base + Offset(p, i)
  }

  /** What the XSDT lists: the FADT and every leaf. */
  function Listed(p: Parts, base: u64): (r: seq<u64>)
    requires Fits(p, base)
    ensures |r| == 1 + |p.leaves| <= 7
    ensures r[0] == Gpa(p, base, 2) && forall k :: 1 <= k < |r| ==> r[k] == Gpa(p, base, 3 + k)
  {
    [Gpa(p, base, 2)] + seq(|p.leaves|, i requires 0 <= i < |p.leaves| => Gpa(p, base, 4 + i))
  }

  function SignatureOf(p: Parts, i: nat): (r: seq<byte>)
    requires i < Count(p)
  {
    if i == 0 then RSDP_SIGNATURE
    else if i == 1 then Xsdt.SIGNATURE
    else if i == 2 then Fadt.SIGNATURE
    else if i == 3 then Dsdt.SIGNATURE
    else p.signatures[i - 4]
  }

  function BytesOf(p: Parts, base: u64, i: nat): (r: seq<byte>)
    requires Fits(p, base) && i < Count(p)
    ensures |r| == Lens(p)[i]
  {
    if i == 0 then Rsdp(Gpa(p, base, 1))
    else if i == 1 then Xsdt.Xsdt(Listed(p, base)).value
    else if i == 2 then Fadt.Fadt(Gpa(p, base, 3), p.conduit).value
    else if i == 3 then p.dsdt
    else p.leaves[i - 4]
  }

  function TableAt(p: Parts, base: u64, i: nat): (r: PlacedTable)
    requires Fits(p, base) && i < Count(p)
  {
    PlacedTable(SignatureOf(p, i), Gpa(p, base, i), BytesOf(p, base, i))
  }

  /** Every table of `p`, laid out from `base`. */
  function TableSet(p: Parts, base: u64): (r: seq<PlacedTable>)
    requires Fits(p, base)
    ensures |r| == Count(p)
    ensures forall i :: 0 <= i < |r| ==> r[i] == TableAt(p, base, i)
  {
    seq(Count(p), i requires 0 <= i < Count(p) => TableAt(p, base, i))
  }

  // ----- the source's loop -----

  /** The first 8-aligned address after `len` bytes at `gpa`, or an overflow. */
  function After(gpa: u64, len: nat): (r: Result<u64, AcpiError>)
    ensures r == if AlignUp(gpa + len) < U64 then Ok(AlignUp(gpa + len)) else Err(AddressOverflow)
  {
    if gpa + len >= U64 then Err(AddressOverflow)
    else if AlignUp(gpa + len) >= U64 then Err(AddressOverflow)
    else Ok(AlignUp(gpa + len))
  }

  lemma AlignShift(base: nat, x: nat)
    requires base % 16 == 0
    ensures AlignUp(base + x) == base + AlignUp(x)
  {
    assert base % 8 == 0;
    assert (AlignUp(base + x) - (base + AlignUp(x))) % 8 == 0;
  }

  /** One step of the layout lands on the next offset, or overflows and so does the whole layout. */
  lemma AfterStep(p: Parts, base: u64, i: nat, gpa: u64)
    requires base % 16 == 0 && i + 1 < Count(p) && gpa == base + Offset(p, i)
    ensures After(gpa, Lens(p)[i]).Ok? ==> After(gpa, Lens(p)[i]).value == base + Offset(p, i + 1)
    ensures After(gpa, Lens(p)[i]).Err? ==> After(gpa, Lens(p)[i]) == Err(AddressOverflow) && base + Total(p) >= U64
  {
    hide Lens, AlignUp;
    AlignShift(base, Offset(p, i) + Lens(p)[i]);
    OffsetsInside(Lens(p), i + 1);
  }

  lemma OffsetZero(p: Parts)
    ensures Offset(p, 0) == 0
  {
  }

  /** The address loop: the FADT, DSDT and leaf addresses and the end of the last table. */
  method Addresses(base: u64, p: Parts) returns (r: Result<(seq<u64>, u64), AcpiError>)
    requires base % 16 == 0
    ensures base + Total(p) >= U64 ==> r == Err(AddressOverflow)
    ensures base + Total(p) < U64 ==>
              && r.Ok? && |r.value.0| == Count(p) && r.value.1 == base + Total(p)
              && forall k :: 0 <= k < Count(p) ==> r.value.0[k] == base + Offset(p, k)
  {
    hide Lens, OffsetAt, After;
    OffsetZero(p);
    AfterStep(p, base, 0, base);
    var xsdtGpa :- After(base, RSDP_LEN);
    AfterStep(p, base, 1, xsdtGpa);
    var fadtGpa :- After(xsdtGpa, HEADER_LEN + 8 * (1 + |p.leaves|));
    AfterStep(p, base, 2, fadtGpa);
    var dsdtGpa :- After(fadtGpa, Fadt.FADT_LEN);
    var next: u64, len: nat := dsdtGpa, |p.dsdt|;
    var gpas: seq<u64> := [base, xsdtGpa, fadtGpa, dsdtGpa];
    for i := 0 to |p.leaves|
      invariant |gpas| == 4 + i && forall k :: 0 <= k < 4 + i ==> gpas[k] == base + Offset(p, k)
      invariant next == base + Offset(p, 3 + i) && len == Lens(p)[3 + i]
    {
      AfterStep(p, base, 3 + i, next);
      next :- After(next, len);
      gpas := gpas + [next];
      len := |p.leaves[i]|;
    }
    if next + len >= U64 {
      return Err(AddressOverflow);
    }
    return Ok((gpas, next + len));
  }

  /** The layout half of `AcpiTables::build`: every address first, then the tables that hold them. */
  method LayOut(base: u64, size: u64, p: Parts) returns (r: Result<seq<PlacedTable>, AcpiError>)
    requires base % 16 == 0
    ensures base + Total(p) >= U64 ==> r == Err(AddressOverflow)
    ensures base + Total(p) < U64 && Total(p) > size ==> r == Err(RegionTooSmall)
    ensures base + Total(p) < U64 && Total(p) <= size ==> r == Ok(TableSet(p, base))
  {
    hide Total, Offset, Rsdp, Xsdt.Xsdt, Fadt.Fadt;
    var laid :- Addresses(base, p);
    var (gpas, end) := laid;
    if end - base > size {
      return Err(RegionTooSmall);
    }
    var listed := [gpas[2]] + gpas[4..];
    assert listed == Listed(p, base);
    var tables := [
      PlacedTable(RSDP_SIGNATURE, base, Rsdp(gpas[1])),
      PlacedTable(Xsdt.SIGNATURE, gpas[1], Xsdt.Xsdt(listed).value),
      PlacedTable(Fadt.SIGNATURE, gpas[2], Fadt.Fadt(gpas[3], p.conduit).value),
      PlacedTable(Dsdt.SIGNATURE, gpas[3], p.dsdt)];
    OffsetZero(p);
    for i := 0 to |p.leaves|
      invariant |tables| == 4 + i
      invariant forall k :: 0 <= k < |tables| ==> tables[k] == TableAt(p, base, k)
    {
      tables := tables + [PlacedTable(p.signatures[i], gpas[4 + i], p.leaves[i])];
    }
    assert tables == TableSet(p, base);
    return Ok(tables);
  }

  // ----- what a layout guarantees -----

  /** A whole table: signature in place, own length in the header, sum zero, at most 1 MiB. */
  ghost predicate IsSdt(signature: seq<byte>, b: seq<byte>) {
    && HEADER_LEN <= |b| <= 0x10_0000
    && b[..4] == signature
    && U32At(b, 4) == |b|
    && ByteSum(b) == 0
  }

  ghost predicate Sound(p: Parts) {
    IsSdt(Dsdt.SIGNATURE, p.dsdt) && forall i :: 0 <= i < |p.leaves| ==> IsSdt(p.signatures[i], p.leaves[i])
  }

  lemma TablesAreSdts(p: Parts, base: u64, i: nat)
    requires Fits(p, base) && Sound(p) && 1 <= i < Count(p)
    ensures IsSdt(SignatureOf(p, i), BytesOf(p, base, i))
  {
    hide Listed, Xsdt.Xsdt, Fadt.Fadt, Fadt.Body, Lens, Gpa;
    if i == 1 {
      Xsdt.XsdtFacts(Listed(p, base));
    } else if i == 2 {
      Fadt.FadtFacts(Gpa(p, base, 3), p.conduit);
    }
  }

  lemma TotalIs(p: Parts)
    ensures Total(p) == TotalOf(Lens(p))
  {
  }

  /** Tables are in address order and disjoint, 8-aligned, and inside the region. */
  lemma InOrder(p: Parts, base: u64)
    requires Fits(p, base)
    ensures Gpa(p, base, 0) == base
    ensures base % 8 == 0 ==> forall i :: 0 <= i < Count(p) ==> Gpa(p, base, i) % 8 == 0
    ensures forall i :: 0 <= i < Count(p) ==>
              base <= Gpa(p, base, i) && Gpa(p, base, i) + |BytesOf(p, base, i)| <= base + Total(p)
    ensures forall i, j :: 0 <= i < j < Count(p) ==> Gpa(p, base, i) + |BytesOf(p, base, i)| <= Gpa(p, base, j)
  {
    hide Lens, OffsetAt, BytesOf, Total;
    OffsetZero(p);
    forall i | 0 <= i < Count(p) ensures Gpa(p, base, i) + |BytesOf(p, base, i)| <= base + Total(p) {
      OffsetsInside(Lens(p), i);
      assert Total(p) == TotalOf(Lens(p)) by { TotalIs(p); }
    }
    forall i, j | 0 <= i < j < Count(p) ensures Gpa(p, base, i) + |BytesOf(p, base, i)| <= Gpa(p, base, j) {
      OffsetsOrdered(Lens(p), i, j);
    }
  }

  lemma PositiveOffsets(p: Parts)
    ensures forall i :: 1 <= i < Count(p) ==> 0 < Offset(p, i)
  {
    hide Lens, AlignUp;
    forall i | 1 <= i < Count(p) ensures 0 < Offset(p, i) {
      OffsetsOrdered(Lens(p), 0, i);
    }
  }

  lemma GpasDiffer(p: Parts, base: u64, i: nat, j: nat)
    requires Fits(p, base) && Sound(p) && i < j < Count(p)
    ensures Gpa(p, base, i) < Gpa(p, base, j)
  {
    hide Gpa, BytesOf, Total, Lens, Sound;
    InOrder(p, base);
    if i == 0 {
      PositiveOffsets(p);
    } else {
      TablesAreSdts(p, base, i);
    }
  }

  /** Every pointer is the start of the table it should name. */
  lemma PointersResolve(p: Parts, base: u64)
    requires Fits(p, base)
    ensures U64At(BytesOf(p, base, 0), RSDP_XSDT_OFFSET) == Gpa(p, base, 1)
    ensures forall k :: 0 <= k < 1 + |p.leaves| ==> U64At(BytesOf(p, base, 1), HEADER_LEN + 8 * k) == Listed(p, base)[k]
    ensures U64At(BytesOf(p, base, 2), Fadt.X_DSDT_OFFSET) == Gpa(p, base, 3)
  {
    hide Lens, OffsetAt, Xsdt.Xsdt, Fadt.Fadt, Fadt.Body, Rsdp;
    RsdpFacts(Gpa(p, base, 1));
    Xsdt.XsdtFacts(Listed(p, base));
    Fadt.FadtFacts(Gpa(p, base, 3), p.conduit);
  }

  /**
    Tables in address order, 8-aligned, disjoint and inside the region, with
    every RSDP, XSDT and X_DSDT pointer the start of the table it names.
   */
  ghost predicate GoodLayout(ts: seq<PlacedTable>, base: nat, size: nat) {
    && |ts| >= 4
    && ts[0].gpa == base
    && (forall i :: 0 <= i < |ts| ==>
         ts[i].gpa % 8 == 0 && base <= ts[i].gpa && ts[i].gpa + |ts[i].bytes| <= base + size)
    && (forall i, j :: 0 <= i < j < |ts| ==> ts[i].gpa + |ts[i].bytes| <= ts[j].gpa)
    && |ts[0].bytes| == RSDP_LEN && U64At(ts[0].bytes, RSDP_XSDT_OFFSET) == ts[1].gpa
    && |ts[1].bytes| == HEADER_LEN + 8 * (|ts| - 3)
    && U64At(ts[1].bytes, HEADER_LEN) == ts[2].gpa
    && (forall i :: 4 <= i < |ts| ==> U64At(ts[1].bytes, HEADER_LEN + 8 * (i - 3)) == ts[i].gpa)
    && |ts[2].bytes| == Fadt.FADT_LEN && U64At(ts[2].bytes, Fadt.X_DSDT_OFFSET) == ts[3].gpa
  }

  lemma LayoutIsGood(p: Parts, base: u64, size: nat)
    requires base % 16 == 0 && Fits(p, base) && Total(p) <= size
    ensures GoodLayout(TableSet(p, base), base, size)
  {
    hide BytesOf, Gpa, Total, Lens, U64At, Fits, SignatureOf, TableSet;
    SetInOrder(p, base);
    SetPointers(p, base);
  }

  lemma SetInOrder(p: Parts, base: u64)
    requires base % 16 == 0 && Fits(p, base)
    ensures var ts := TableSet(p, base);
            && ts[0].gpa == base
            && (forall i :: 0 <= i < |ts| ==>
                 ts[i].gpa % 8 == 0 && base <= ts[i].gpa && ts[i].gpa + |ts[i].bytes| <= base + Total(p))
            && (forall i, j :: 0 <= i < j < |ts| ==> ts[i].gpa + |ts[i].bytes| <= ts[j].gpa)
  {
    hide BytesOf, Gpa, Total, Lens, Fits, SignatureOf, TableSet;
    assert base % 8 == 0;
    InOrder(p, base);
  }

  lemma SetPointers(p: Parts, base: u64)
    requires Fits(p, base)
    ensures var ts := TableSet(p, base);
            && |ts[0].bytes| == RSDP_LEN && U64At(ts[0].bytes, RSDP_XSDT_OFFSET) == ts[1].gpa
            && |ts[1].bytes| == HEADER_LEN + 8 * (|ts| - 3)
            && U64At(ts[1].bytes, HEADER_LEN) == ts[2].gpa
            && (forall i :: 4 <= i < |ts| ==> U64At(ts[1].bytes, HEADER_LEN + 8 * (i - 3)) == ts[i].gpa)
            && |ts[2].bytes| == Fadt.FADT_LEN && U64At(ts[2].bytes, Fadt.X_DSDT_OFFSET) == ts[3].gpa
  {
    hide BytesOf, Gpa, Total, Lens, U64At, Fits, SignatureOf;
    var ts := TableSet(p, base);
    PointersResolve(p, base);
    assert U64At(ts[1].bytes, HEADER_LEN + 8 * 0) == Listed(p, base)[0];
    forall i | 4 <= i < |ts| ensures U64At(ts[1].bytes, HEADER_LEN + 8 * (i - 3)) == ts[i].gpa {
      assert Listed(p, base)[i - 3] == Gpa(p, base, i);
    }
  }
}

/** `AcpiTables::build`: encode, lay out, resolve. */
module Tables {
  import opened Results
  import opened AcpiErrors
  import opened Bytes
  import opened Sdt
  import opened Config
  import opened Layout
  import Madt
  import Gtdt
  import Mcfg
  import Spcr
  import Dbg2
  import Tpm2
  import Fadt
  import Xsdt
  import Dsdt

  /** The address of bus 0 exists and the ECAM window fits its AML descriptor. */
  predicate Encodable(c: AcpiConfig): (r: bool)
    requires Valid(c)
    ensures r ==> Mcfg.HasBusZero(c.ecam)
  {
    Mcfg.HasBusZero(c.ecam) && c.ecam.base + Buses(c.ecam) * 0x10_0000 <= U32
  }

  lemma EncodableBuildsDsdt(c: AcpiConfig)
    requires Valid(c) && Mcfg.HasBusZero(c.ecam)
    ensures Encodable(c) <==> Dsdt.Dsdt(c).Ok?
    ensures Encodable(c) ==> IsSdt(Dsdt.SIGNATURE, Dsdt.Dsdt(c).value)
  {
    hide Dsdt.Body, Dsdt.Describable;
    Dsdt.ValidDescribable(c);
    Dsdt.DsdtBuilds(c);
    if Encodable(c) {
      TableFacts(NewHeader(Dsdt.SIGNATURE, 2), Dsdt.Body(c).value);
    }
  }

  function DsdtBytes(c: AcpiConfig): (r: seq<byte>)
    requires Valid(c) && Encodable(c)
    ensures IsSdt(Dsdt.SIGNATURE, r)
    ensures Dsdt.Dsdt(c) == Ok(r)
  {
    EncodableBuildsDsdt(c);
    Dsdt.Dsdt(c).value
  }

  function LeafSignatures(tpm: bool): (r: seq<Signature>)
    ensures |r| == if tpm then 6 else 5
  {
    [Madt.SIGNATURE, Gtdt.SIGNATURE, Mcfg.SIGNATURE, Spcr.SIGNATURE, Dbg2.SIGNATURE] + if tpm then [Tpm2.SIGNATURE]
      else []
  }

  function LeafBytes(c: AcpiConfig): (r: seq<seq<byte>>)
    requires Valid(c) && Mcfg.HasBusZero(c.ecam)
    ensures |r| == if c.tpm.Some? then 6 else 5
  {
    [Madt.Madt(c).value, Gtdt.Gtdt(c.timer).value, Mcfg.Mcfg(c.ecam).value, Spcr.Spcr(c.uart).value,
      Dbg2.Dbg2(c.uart).value]
    + if c.tpm.Some? then [Tpm2.Tpm2(c.tpm.value).value] else []
  }

  function PartsOf(c: AcpiConfig): (p: Parts)
    requires Valid(c) && Encodable(c)
  {
    Parts(c.conduit, DsdtBytes(c), LeafSignatures(c.tpm.Some?), LeafBytes(c))
  }

  lemma LeavesAreSdts(c: AcpiConfig, i: nat)
    requires Valid(c) && Encodable(c) && i < |LeafBytes(c)|
    ensures IsSdt(LeafSignatures(c.tpm.Some?)[i], LeafBytes(c)[i])
  {
    hide Madt.Madt, Madt.Body, Gtdt.Gtdt, Mcfg.Mcfg, Spcr.Spcr, Dbg2.Dbg2, Tpm2.Tpm2;
    if i == 0 {
      Madt.MadtRoundTrip(c);
      MadtSize(c);
    } else if i == 1 {
      Gtdt.GtdtRoundTrip(c.timer);
    } else if i == 2 {
      Mcfg.McfgRoundTrip(c.ecam);
    } else if i == 3 {
      Spcr.SpcrRoundTrip(c.uart);
    } else if i == 4 {
      Dbg2.Dbg2RoundTrip(c.uart);
    } else {
      Tpm2.Tpm2RoundTrip(c.tpm.value);
    }
  }

  lemma MadtSize(c: AcpiConfig)
    requires Valid(c)
    ensures HEADER_LEN <= |Madt.Madt(c).value| <= 0x10_0000
  {
    hide Madt.Body;
    Madt.BodyLength(c);
  }

  lemma PartsAreSound(c: AcpiConfig)
    requires Valid(c) && Encodable(c)
    ensures Sound(PartsOf(c))
  {
    hide Valid, Encodable, DsdtBytes, LeafBytes, LeafSignatures, IsSdt;
    forall i | 0 <= i < |LeafBytes(c)| ensures IsSdt(LeafSignatures(c.tpm.Some?)[i], LeafBytes(c)[i]) {
      LeavesAreSdts(c, i);
    }
  }

  /** `AcpiTables::build`, with the layout as a closed form. */
  function Built(base: u64, size: u64, c: AcpiConfig): (r: Result<seq<PlacedTable>, AcpiError>) {
    if base % 16 != 0 then Err(Misaligned)
    else if !Valid(c) || !Encodable(c) then Err(BadConfig)
    else
      var p := PartsOf(c);
      if base + Total(p) >= U64 then Err(AddressOverflow)
      else if Total(p) > size then Err(RegionTooSmall)
      else Ok(TableSet(p, base))
  }

  method Build(base: u64, size: u64, c: AcpiConfig) returns (r: Result<seq<PlacedTable>, AcpiError>)
    ensures r == Built(base, size, c)
  {
    hide Valid, Encodable, PartsOf, Total, TableSet;
    if base % 16 != 0 {
      return Err(Misaligned);
    }
    if !Valid(c) || !Encodable(c) {
      return Err(BadConfig);
    }
    r := LayOut(base, size, PartsOf(c));
  }

  /** Whenever `build` succeeds, the layout is good. */
  lemma LayoutHolds(base: u64, size: u64, c: AcpiConfig)
    requires Built(base, size, c).Ok?
    ensures |Built(base, size, c).value| == if c.tpm.Some? then 10 else 9
    ensures GoodLayout(Built(base, size, c).value, base, size)
  {
    hide Valid, Encodable, DsdtBytes, LeafBytes, LeafSignatures, Total, GoodLayout;
    LayoutIsGood(PartsOf(c), base, size);
  }

  /** Offsets from the base do not depend on the base. */
  lemma OffsetsIndependent(base: u64, size: u64, base': u64, size': u64, c: AcpiConfig)
    requires Built(base, size, c).Ok? && Built(base', size', c).Ok?
    ensures var ts, us := Built(base, size, c).value, Built(base', size', c).value;
            |ts| == |us| && forall i :: 0 <= i < |ts| ==> ts[i].gpa - base == us[i].gpa - base'
  {
    hide Valid, Encodable, PartsOf, Total;
  }
}
