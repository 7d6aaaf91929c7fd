/** `verify`: do tables read back say what a config says? */
module Verify {
  import opened Results
  import opened AcpiErrors
  import opened Bytes
  import opened Sdt
  import opened Config
  import opened Layout
  import Madt
  import Gtdt
  import Mcfg
  import Spcr
  import Dbg2
  import Tpm2
  import Fadt
  import Xsdt
  import Dsdt

  datatype Problem =
    | Mismatch(what: string)
    | Undecodable(table: string, error: AcpiError)
    | BadSum(signature: seq<byte>)

  function Expect(what: string, same: bool): (p: seq<Problem>)
    ensures p == [] <==> same
  {
    if same then [] else [Mismatch(what)]
  }

  function ChecksumOk(t: PlacedTable): (r: bool) {
    if t.signature == RSDP_SIGNATURE then |t.bytes| == RSDP_LEN && RsdpChecksumsOk(t.bytes) else ByteSum(t.bytes) == 0
  }

  /** The first table with that signature. */
  function Find(ts: seq<PlacedTable>, signature: seq<byte>): (r: Option<seq<byte>>) {
    if ts == [] then None
    else if ts[0].signature == signature then Some(ts[0].bytes)
    else Find(ts[1..], signature)
  }

  function SignaturesIn(ts: seq<PlacedTable>): (r: seq<seq<byte>>)
    ensures |r| == |ts|
    ensures forall i :: 0 <= i < |ts| ==> r[i] == ts[i].signature
  {
    seq(|ts|, i requires 0 <= i < |ts| => ts[i].signature)
  }

  /** `signatures(config)`: the tables a config asks for. */
  function ExpectedSignatures(e: AcpiConfig): (r: seq<seq<byte>>) {
    [RSDP_SIGNATURE, Xsdt.SIGNATURE, Fadt.SIGNATURE, Dsdt.SIGNATURE, Madt.SIGNATURE, Gtdt.SIGNATURE, Mcfg.SIGNATURE,
      Spcr.SIGNATURE, Dbg2.SIGNATURE]
    + if e.tpm.Some? then [Tpm2.SIGNATURE] else []
  }

  // ----- table by table -----

  predicate GiccMatches(g: Madt.GiccInfo, index: nat, mpidr: u64) {
    g.uid == index && g.mpidr == mpidr && g.flags == Madt.GICC_ENABLED && g.gicrBase == 0
  }

  predicate MadtMatches(info: Madt.MadtInfo, e: AcpiConfig) {
    && info.gicds == [(e.gic.distBase, Madt.GIC_VERSION_3)]
    && info.gicrs == [(e.gic.redistBase, e.gic.redistLen)]
    && |info.giccs| == |e.mpidrs|
    && forall i :: 0 <= i < |e.mpidrs| ==> GiccMatches(info.giccs[i], i, e.mpidrs[i])
  }

  predicate MadtOk(b: Option<seq<byte>>, e: AcpiConfig) {
    b.Some? ==> Madt.DecodedMadt(b.value).Ok? && MadtMatches(Madt.DecodedMadt(b.value).value, e)
  }

  method CheckMadt(b: Option<seq<byte>>, e: AcpiConfig) returns (p: seq<Problem>)
    ensures p == [] <==> MadtOk(b, e)
  {
    hide Madt.DecodedMadt;
    if b.None? {
      return [];
    }
    var decoded := Madt.DecodeMadt(b.value);
    if decoded.Err? {
      return [Undecodable("APIC", decoded.error)];
    }
    var info := decoded.value;
    p := Expect("APIC GICD (base, version)", info.gicds == [(e.gic.distBase, Madt.GIC_VERSION_3)]);
    p := p + Expect("APIC GICR (base, length)", info.gicrs == [(e.gic.redistBase, e.gic.redistLen)]);
    p := p + Expect("APIC GICC count", |info.giccs| == |e.mpidrs|);
    var n := if |info.giccs| < |e.mpidrs| then |info.giccs| else |e.mpidrs|;
    ghost var fixed := p;
    for i := 0 to n
      invariant p == [] <==> fixed == [] && forall k :: 0 <= k < i ==> GiccMatches(info.giccs[k], k, e.mpidrs[k])
    {
      p := p + CheckGicc(info.giccs[i], i, e.mpidrs[i]);
    }
  }

  function CheckGicc(g: Madt.GiccInfo, index: nat, mpidr: u64): (p: seq<Problem>)
    ensures p == [] <==> GiccMatches(g, index, mpidr)
  {
    Expect("APIC GICC UID", g.uid == index) + Expect("APIC GICC MPIDR", g.mpidr == mpidr)
    + Expect("APIC GICC flags", g.flags == Madt.GICC_ENABLED) + Expect("APIC GICC GICR base", g.gicrBase == 0)
  }

  predicate GtdtMatches(info: Gtdt.GtdtInfo, e: AcpiConfig)
    requires |info.gsivs| == 4 && |info.flags| == 4
  {
    forall i :: 0 <= i < 4 ==>
      && info.gsivs[i] == PpiGsiv(e.timer.ppis[i])
      && ((info.flags[i] / Gtdt.TIMER_ALWAYS_ON) % 2 == 1 <==> e.timer.alwaysOn)
      && info.flags[i] % 4 == 0
  }

  predicate GtdtOk(b: Option<seq<byte>>, e: AcpiConfig) {
    b.Some? ==> Gtdt.DecodedGtdt(b.value).Ok? && GtdtMatches(Gtdt.DecodedGtdt(b.value).value, e)
  }

  function CheckGtdt(b: Option<seq<byte>>, e: AcpiConfig): (p: seq<Problem>)
    ensures p == [] <==> GtdtOk(b, e)
  {
    hide Gtdt.DecodedGtdt;
    if b.None? then []
    else
      match Gtdt.DecodedGtdt(b.value)
      case Err(error) => [Undecodable("GTDT", error)]
      case Ok(info) =>
        Expect("GTDT timer GSIVs", forall i :: 0 <= i < 4 ==> info.gsivs[i] == PpiGsiv(e.timer.ppis[i]))
        + Expect("GTDT always-on", forall i :: 0 <= i < 4 ==>
          ((info.flags[i] / Gtdt.TIMER_ALWAYS_ON) % 2 == 1 <==> e.timer.alwaysOn))
        + Expect("GTDT level/active-high", forall i :: 0 <= i < 4 ==> info.flags[i] % 4 == 0)
  }

  /** An allocation's window as the config states it: the address of its first bus, wrapping at 64 bits. */
  function Window(a: Mcfg.McfgAllocation): (r: (u64, nat, byte, byte)) {
    ((a.base + a.startBus * 0x10_0000) % U64, a.segment, a.startBus, a.endBus)
  }

  function Windows(as_: seq<Mcfg.McfgAllocation>): (r: seq<(u64, nat, byte, byte)>)
    ensures |r| == |as_|
    ensures forall i :: 0 <= i < |as_| ==> r[i] == Window(as_[i])
  {
    seq(|as_|, i requires 0 <= i < |as_| => Window(as_[i]))
  }

  predicate McfgOk(b: Option<seq<byte>>, e: AcpiConfig) {
    b.Some? ==>
      && Mcfg.DecodedMcfg(b.value).Ok?
      && Windows(Mcfg.DecodedMcfg(b.value).value) == [(e.ecam.base, 0, e.ecam.startBus, e.ecam.endBus)]
  }

  function CheckMcfg(b: Option<seq<byte>>, e: AcpiConfig): (p: seq<Problem>)
    ensures p == [] <==> McfgOk(b, e)
  {
    hide Mcfg.DecodedMcfg;
    if b.None? then []
    else
      match Mcfg.DecodedMcfg(b.value)
      case Err(error) => [Undecodable("MCFG", error)]
      case Ok(found) =>
        Expect("MCFG allocations (base, segment, start bus, end bus)",
          Windows(found) == [(e.ecam.base, 0, e.ecam.startBus, e.ecam.endBus)])
  }

  // ----- the DSDT, byte for byte -----

  ghost predicate IsFirstDifference(a: seq<byte>, b: seq<byte>, r: Option<nat>) {
    match r
    case None => a == b
    case Some(i) =>
      i <= |a| && i <= |b| && a[..i] == b[..i] && (i < |a| && i < |b| ==> a[i] != b[i])
      && (i == |a| || i == |b| ==> |a| != |b|)
  }

  /** Where two byte strings first differ, counting the end of the shorter one. */
  method FirstDifference(a: seq<byte>, b: seq<byte>) returns (r: Option<nat>)
    ensures IsFirstDifference(a, b, r)
    ensures r.None? <==> a == b
  {
    var i := 0;
    while i < |a| && i < |b|
      invariant i <= |a| && i <= |b| && a[..i] == b[..i]
    {
      if a[i] != b[i] {
        return Some(i);
      }
      i := i + 1;
    }
    if |a| != |b| {
      return Some(i);
    }
    assert a == a[..i] && b == b[..i];
    return None;
  }

  predicate DsdtOk(b: Option<seq<byte>>, e: AcpiConfig) {
    b.Some? ==> Dsdt.Dsdt(e) == Ok(b.value)
  }

  function AfterHeader(t: seq<byte>): (r: seq<byte>) {
    if HEADER_LEN <= |t| then t[HEADER_LEN..] else []
  }

  method CheckDsdt(b: Option<seq<byte>>, e: AcpiConfig) returns (p: seq<Problem>)
    ensures p == [] <==> DsdtOk(b, e)
  {
    hide Dsdt.Dsdt;
    if b.None? {
      return [];
    }
    var built := Dsdt.Dsdt(e);
    if built.Err? {
      return [Undecodable("DSDT", built.error)];
    }
    var at := FirstDifference(AfterHeader(built.value), AfterHeader(b.value));
    if at.None? {
      at := FirstDifference(built.value, b.value);
    }
    return if at.None? then [] else [Mismatch("DSDT: AML differs from the builder's")];
  }

  // ----- console, debug port, TPM -----

  predicate SpcrOk(b: Option<seq<byte>>, e: AcpiConfig) {
    b.Some? ==> Spcr.DecodedSpcr(b.value)
                == Ok(Spcr.SpcrInfo(Spcr.INTERFACE_PL011, Mmio32(e.uart.base), Spcr.INTERRUPT_TYPE_GIC,
                  SpiGsiv(e.uart.spi)))
  }

  function CheckSpcr(b: Option<seq<byte>>, e: AcpiConfig): (p: seq<Problem>)
    ensures p == [] <==> SpcrOk(b, e)
  {
    hide Spcr.DecodedSpcr;
    if b.None? then []
    else
      match Spcr.DecodedSpcr(b.value)
      case Err(error) => [Undecodable("SPCR", error)]
      case Ok(info) =>
        Expect("SPCR interface type", info.interfaceType == Spcr.INTERFACE_PL011)
        + Expect("SPCR base", info.base == Mmio32(e.uart.base))
        + Expect("SPCR interrupt type", info.interruptType == Spcr.INTERRUPT_TYPE_GIC)
        + Expect("SPCR GSIV", info.gsiv == SpiGsiv(e.uart.spi))
  }

  predicate Dbg2Ok(b: Option<seq<byte>>, e: AcpiConfig) {
    b.Some? ==> Dbg2.DecodedDbg2(b.value)
                == Ok([Dbg2.Dbg2Device(Dbg2.PORT_SERIAL, Dbg2.SUBTYPE_PL011, Mmio32(e.uart.base), e.uart.len)])
  }

  method CheckDbg2(b: Option<seq<byte>>, e: AcpiConfig) returns (p: seq<Problem>)
    ensures p == [] <==> Dbg2Ok(b, e)
  {
    hide Dbg2.DecodedDbg2;
    if b.None? {
      return [];
    }
    var decoded := Dbg2.DecodeDbg2(b.value);
    match decoded
    case Err(error) => return [Undecodable("DBG2", error)];
    case Ok(found) =>
      return Expect("DBG2 devices (type, subtype, base, size)",
                    found == [Dbg2.Dbg2Device(Dbg2.PORT_SERIAL, Dbg2.SUBTYPE_PL011, Mmio32(e.uart.base), e.uart.len)]);
  }

  predicate Tpm2Ok(b: Option<seq<byte>>, e: AcpiConfig) {
    b.Some? ==>
      && Tpm2.DecodedTpm2(b.value).Ok?
      && (e.tpm.Some? ==>
           Tpm2.DecodedTpm2(b.value).value
           == Tpm2.Tpm2Info(Tpm2.PLATFORM_CLIENT, e.tpm.value.controlArea, Tpm2.START_METHOD_CRB))
  }

  function CheckTpm2(b: Option<seq<byte>>, e: AcpiConfig): (p: seq<Problem>)
    ensures p == [] <==> Tpm2Ok(b, e)
  {
    hide Tpm2.DecodedTpm2;
    if b.None? then []
    else
      match Tpm2.DecodedTpm2(b.value)
      case Err(error) => [Undecodable("TPM2", error)]
      case Ok(info) =>
        if e.tpm.None? then []
        else
          Expect("TPM2 (platform class, control area, start method)",
                 info == Tpm2.Tpm2Info(Tpm2.PLATFORM_CLIENT, e.tpm.value.controlArea, Tpm2.START_METHOD_CRB))
  }

  // ----- the whole check -----

  predicate RightSet(ts: seq<PlacedTable>, e: AcpiConfig) {
    multiset(SignaturesIn(ts)) == multiset(ExpectedSignatures(e))
  }

  predicate SumsOk(ts: seq<PlacedTable>) {
    forall i :: 0 <= i < |ts| ==> ChecksumOk(ts[i])
  }

  /** The tables are those `e` asks for, all sum to zero, and all say what `e` says. */
  ghost predicate Matches(ts: seq<PlacedTable>, e: AcpiConfig) {
    && RightSet(ts, e)
    && SumsOk(ts)
    && MadtOk(Find(ts, Madt.SIGNATURE), e)
    && GtdtOk(Find(ts, Gtdt.SIGNATURE), e)
    && McfgOk(Find(ts, Mcfg.SIGNATURE), e)
    && DsdtOk(Find(ts, Dsdt.SIGNATURE), e)
    && SpcrOk(Find(ts, Spcr.SIGNATURE), e)
    && Dbg2Ok(Find(ts, Dbg2.SIGNATURE), e)
    && Tpm2Ok(Find(ts, Tpm2.SIGNATURE), e)
  }

  method CheckSums(ts: seq<PlacedTable>) returns (p: seq<Problem>)
    ensures p == [] <==> SumsOk(ts)
  {
    p := [];
    for i := 0 to |ts|
      invariant p == [] <==> forall k :: 0 <= k < i ==> ChecksumOk(ts[k])
    {
      if !ChecksumOk(ts[i]) {
        p := p + [BadSum(ts[i].signature)];
      }
    }
  }

  /** `verify`: no problem is found exactly when the tables match. */
  method Check(ts: seq<PlacedTable>, e: AcpiConfig) returns (r: Result<(), AcpiError>, problems: seq<Problem>)
    ensures r.Ok? <==> problems == []
    ensures r.Ok? <==> Matches(ts, e)
    ensures r.Err? ==> r == Err(Drift)
  {
    hide MadtOk, GtdtOk, McfgOk, DsdtOk, SpcrOk, Dbg2Ok, Tpm2Ok, SumsOk, RightSet, Find, CheckGtdt, CheckMcfg,
      CheckSpcr, CheckTpm2;
    problems := Expect("table set", RightSet(ts, e));
    var sums := CheckSums(ts);
    problems := problems + sums;
    var madt := CheckMadt(Find(ts, Madt.SIGNATURE), e);
    problems := problems + madt + CheckGtdt(Find(ts, Gtdt.SIGNATURE), e) + CheckMcfg(Find(ts, Mcfg.SIGNATURE), e);
    var dsdt := CheckDsdt(Find(ts, Dsdt.SIGNATURE), e);
    problems := problems + dsdt + CheckSpcr(Find(ts, Spcr.SIGNATURE), e);
    var dbg2 := CheckDbg2(Find(ts, Dbg2.SIGNATURE), e);
    problems := problems + dbg2 + CheckTpm2(Find(ts, Tpm2.SIGNATURE), e);
    r := if problems == [] then Ok(()) else Err(Drift);
  }
}

/** What `verify` decides about tables built from one config and checked against another. */
module Drift {
  import opened Results
  import opened Bytes
  import opened Sdt
  import opened Config
  import opened Layout
  import opened Tables
  import opened Verify
  import opened Dump
  import opened GuestMemory
  import BuiltSets
  import BuiltRelocation
  import Madt
  import Gtdt
  import Mcfg
  import Spcr
  import Dbg2
  import Tpm2
  import Fadt
  import Xsdt
  import Dsdt

  /** Equal in every field but the PSCI conduit. */
  ghost predicate SameButConduit(c: AcpiConfig, d: AcpiConfig) {
    c.(conduit := d.conduit) == d
  }

  // ----- finding each table -----

  lemma {:induction false} FindFirst(ts: seq<PlacedTable>, signature: seq<byte>, i: nat)
    requires i < |ts| && ts[i].signature == signature && forall j :: 0 <= j < i ==> ts[j].signature != signature
    ensures Find(ts, signature) == Some(ts[i].bytes)
  {
    if i > 0 {
      FindFirst(ts[1..], signature, i - 1);
    }
  }

  lemma {:induction false} FindNone(ts: seq<PlacedTable>, signature: seq<byte>)
    requires forall j :: 0 <= j < |ts| ==> ts[j].signature != signature
    ensures Find(ts, signature) == None
  {
    if ts != [] {
      FindNone(ts[1..], signature);
    }
  }

  lemma SetSignatures(p: Parts, base: u64)
    requires Fits(p, base)
    ensures SignaturesIn(TableSet(p, base))
              == [RSDP_SIGNATURE, Xsdt.SIGNATURE, Fadt.SIGNATURE, Dsdt.SIGNATURE] + p.signatures
  {
    hide BytesOf, Gpa, Fits;
  }

  lemma BuiltSignatures(c: AcpiConfig, base: u64)
    requires Valid(c) && Encodable(c) && Fits(PartsOf(c), base)
    ensures SignaturesIn(TableSet(PartsOf(c), base)) == ExpectedSignatures(c)
  {
    hide Valid, Encodable, DsdtBytes, LeafBytes, LeafSignatures, Fits, SignaturesIn, ExpectedSignatures;
    SetSignatures(PartsOf(c), base);
    ExpectedIs(c);
  }

  lemma ExpectedIs(c: AcpiConfig)
    ensures [RSDP_SIGNATURE, Xsdt.SIGNATURE, Fadt.SIGNATURE, Dsdt.SIGNATURE] + LeafSignatures(c.tpm.Some?)
              == ExpectedSignatures(c)
  {
  }

  /** The tables of a built set that no address enters, as the encoders wrote them. */
  lemma BuiltBytes(c: AcpiConfig, base: u64)
    requires Valid(c) && Encodable(c) && Fits(PartsOf(c), base)
    ensures |TableSet(PartsOf(c), base)| == 4 + |LeafBytes(c)| == |ExpectedSignatures(c)|
    ensures TableSet(PartsOf(c), base)[3].bytes == DsdtBytes(c)
    ensures forall k :: 0 <= k < |LeafBytes(c)| ==> TableSet(PartsOf(c), base)[4 + k].bytes == LeafBytes(c)[k]
  {
    hide Valid, Encodable, DsdtBytes, LeafBytes, LeafSignatures, Fits, Gpa;
  }

  lemma ExpectedDiffer(c: AcpiConfig)
    ensures var s := ExpectedSignatures(c); forall i, j :: 0 <= i < j < |s| ==> s[i] != s[j]
  {
    var s := ExpectedSignatures(c);
    assert |s[0]| == 8 && forall j :: 0 < j < |s| ==> |s[j]| == 4;
  }

  /** Table `i` of a built set is what its signature finds. */
  lemma FindBuilt(c: AcpiConfig, base: u64, i: nat)
    requires Valid(c) && Encodable(c) && Fits(PartsOf(c), base) && i < |ExpectedSignatures(c)|
    ensures i < |TableSet(PartsOf(c), base)|
    ensures Find(TableSet(PartsOf(c), base), ExpectedSignatures(c)[i]) == Some(TableSet(PartsOf(c), base)[i].bytes)
  {
    hide Valid, Encodable, PartsOf, Fits, TableAt, ExpectedSignatures;
    var ts := TableSet(PartsOf(c), base);
    BuiltSignatures(c, base);
    ExpectedDiffer(c);
    assert |SignaturesIn(ts)| == |ts|;
    assert forall j :: 0 <= j < |ts| ==> ts[j].signature == ExpectedSignatures(c)[j];
    FindFirst(ts, ExpectedSignatures(c)[i], i);
  }

  lemma FindTpm(c: AcpiConfig, base: u64)
    requires Valid(c) && Encodable(c) && Fits(PartsOf(c), base)
    ensures Find(TableSet(PartsOf(c), base), Tpm2.SIGNATURE)
            == if c.tpm.Some? then Some(Tpm2.Tpm2(c.tpm.value).value) else None
  {
    hide Valid, Encodable, PartsOf, LeafBytes, Fits, TableSet, Tpm2.Tpm2, Find;
    var ts := TableSet(PartsOf(c), base);
    BuiltBytes(c, base);
    if c.tpm.Some? {
      FindBuilt(c, base, 9);
      LastLeaf(c);
      assert ts[4 + 5].bytes == LeafBytes(c)[5];
      assert ExpectedSignatures(c)[9] == Tpm2.SIGNATURE;
    } else {
      NoTpm(c, base);
    }
  }

  lemma NoTpm(c: AcpiConfig, base: u64)
    requires Valid(c) && Encodable(c) && Fits(PartsOf(c), base) && c.tpm.None?
    ensures Find(TableSet(PartsOf(c), base), Tpm2.SIGNATURE) == None
  {
    hide Valid, Encodable, PartsOf, Fits, TableSet, Find, ExpectedSignatures;
    var ts := TableSet(PartsOf(c), base);
    BuiltSignatures(c, base);
    NoTpmExpected(c);
    forall j | 0 <= j < |ts| ensures ts[j].signature != Tpm2.SIGNATURE {
      assert SignaturesIn(ts)[j] == ts[j].signature;
      assert SignaturesIn(ts)[j] in ExpectedSignatures(c);
    }
    FindNone(ts, Tpm2.SIGNATURE);
  }

  lemma NoTpmExpected(c: AcpiConfig)
    requires c.tpm.None?
    ensures Tpm2.SIGNATURE !in ExpectedSignatures(c)
  {
  }

  lemma LastLeaf(c: AcpiConfig)
    requires Valid(c) && Mcfg.HasBusZero(c.ecam) && c.tpm.Some?
    ensures LeafBytes(c)[5] == Tpm2.Tpm2(c.tpm.value).value
  {
    hide Madt.Madt, Gtdt.Gtdt, Mcfg.Mcfg, Spcr.Spcr, Dbg2.Dbg2, Tpm2.Tpm2;
  }

  lemma FirstLeaves(c: AcpiConfig)
    requires Valid(c) && Mcfg.HasBusZero(c.ecam)
    ensures LeafBytes(c)[0] == Madt.Madt(c).value && LeafBytes(c)[1] == Gtdt.Gtdt(c.timer).value
            && LeafBytes(c)[2] == Mcfg.Mcfg(c.ecam).value
    ensures LeafBytes(c)[3] == Spcr.Spcr(c.uart).value && LeafBytes(c)[4] == Dbg2.Dbg2(c.uart).value
  {
    hide Madt.Madt, Gtdt.Gtdt, Mcfg.Mcfg, Spcr.Spcr, Dbg2.Dbg2, Tpm2.Tpm2;
  }

  /** Every table `verify` reads, as the encoders wrote it. */
  lemma FindEach(c: AcpiConfig, base: u64)
    requires Valid(c) && Encodable(c) && Fits(PartsOf(c), base)
    ensures var ts := TableSet(PartsOf(c), base);
            && Find(ts, Dsdt.SIGNATURE) == Some(DsdtBytes(c))
            && Find(ts, Madt.SIGNATURE) == Some(Madt.Madt(c).value)
            && Find(ts, Gtdt.SIGNATURE) == Some(Gtdt.Gtdt(c.timer).value)
            && Find(ts, Mcfg.SIGNATURE) == Some(Mcfg.Mcfg(c.ecam).value)
            && Find(ts, Spcr.SIGNATURE) == Some(Spcr.Spcr(c.uart).value)
            && Find(ts, Dbg2.SIGNATURE) == Some(Dbg2.Dbg2(c.uart).value)
  {
    hide Encodable, DsdtBytes, Fits, PartsOf, LeafBytes, TableSet, Madt.Madt, Gtdt.Gtdt, Mcfg.Mcfg, Spcr.Spcr,
      Dbg2.Dbg2, Find;
    var ts := TableSet(PartsOf(c), base);
    BuiltBytes(c, base);
    FirstLeaves(c);
    FindBuilt(c, base, 3);
    forall k | 0 <= k < 5 ensures Find(ts, ExpectedSignatures(c)[4 + k]) == Some(LeafBytes(c)[k]) {
      FindBuilt(c, base, 4 + k);
    }
    NamedLeaves(c);
  }

  lemma NamedLeaves(c: AcpiConfig)
    ensures var s := ExpectedSignatures(c);
            && s[3] == Dsdt.SIGNATURE && s[4 + 0] == Madt.SIGNATURE && s[4 + 1] == Gtdt.SIGNATURE
            && s[4 + 2] == Mcfg.SIGNATURE
            && s[4 + 3] == Spcr.SIGNATURE && s[4 + 4] == Dbg2.SIGNATURE
  {
  }

  // ----- table by table -----

  lemma MadtDecides(c: AcpiConfig, d: AcpiConfig)
    requires Valid(c)
    ensures MadtOk(Some(Madt.Madt(c).value), d) <==> c.gic == d.gic && c.mpidrs == d.mpidrs
  {
    hide Madt.Madt, Madt.DecodedMadt;
    Madt.MadtRoundTrip(c);
    DescribesDecides(c, d);
  }

  lemma DescribesDecides(c: AcpiConfig, d: AcpiConfig)
    requires |c.mpidrs| <= MAX_CPUS
    ensures MadtMatches(Madt.Describes(c), d) <==> c.gic == d.gic && c.mpidrs == d.mpidrs
  {
    var info := Madt.Describes(c);
    if MadtMatches(info, d) {
      assert info.gicds[0] == (d.gic.distBase, Madt.GIC_VERSION_3)
        && info.gicrs[0] == (d.gic.redistBase, d.gic.redistLen);
      forall i | 0 <= i < |c.mpidrs| ensures c.mpidrs[i] == d.mpidrs[i] {
        assert GiccMatches(info.giccs[i], i, d.mpidrs[i]);
      }
    }
  }

  lemma GtdtDecides(c: AcpiConfig, d: AcpiConfig)
    requires Valid(c)
    ensures GtdtOk(Some(Gtdt.Gtdt(c.timer).value), d) <==> c.timer == d.timer
  {
    hide Gtdt.Gtdt, Gtdt.DecodedGtdt;
    Gtdt.GtdtRoundTrip(c.timer);
    var info := Gtdt.DecodedGtdt(Gtdt.Gtdt(c.timer).value).value;
    if GtdtMatches(info, d) {
      forall i | 0 <= i < 4 ensures c.timer.ppis[i] == d.timer.ppis[i] {
        assert info.gsivs[i] == PpiGsiv(c.timer.ppis[i]) && info.gsivs[i] == PpiGsiv(d.timer.ppis[i]);
      }
      assert info.flags[0] == Gtdt.TimerFlags(c.timer);
      assert c.timer.ppis == d.timer.ppis;
    }
  }

  lemma McfgDecides(c: AcpiConfig, d: AcpiConfig)
    requires Valid(c) && Mcfg.HasBusZero(c.ecam)
    ensures McfgOk(Some(Mcfg.Mcfg(c.ecam).value), d) <==> c.ecam == d.ecam
  {
    hide Mcfg.Mcfg, Mcfg.DecodedMcfg, Valid;
    Mcfg.McfgRoundTrip(c.ecam);
    var a := Mcfg.McfgAllocation(c.ecam.base - c.ecam.startBus * 0x10_0000, 0, c.ecam.startBus, c.ecam.endBus);
    assert Window(a) == (c.ecam.base, 0, c.ecam.startBus, c.ecam.endBus);
    assert Windows([a]) == [Window(a)];
    if Windows([a]) == [(d.ecam.base, 0, d.ecam.startBus, d.ecam.endBus)] {
      assert Windows([a])[0] == (d.ecam.base, 0, d.ecam.startBus, d.ecam.endBus);
    }
  }

  lemma DsdtDecides(c: AcpiConfig, d: AcpiConfig)
    requires Valid(c) && Encodable(c)
    ensures DsdtOk(Some(DsdtBytes(c)), d) <==> Dsdt.SameAml(c, d)
  {
    hide Valid, Encodable, DsdtBytes, Dsdt.Dsdt, Dsdt.SameAml;
    var b := DsdtBytes(c);
    assert Dsdt.Dsdt(c) == Ok(b);
    if Dsdt.Dsdt(d) == Ok(b) {
      Dsdt.DsdtInjective(c, d);
    }
    if Dsdt.SameAml(c, d) {
      Dsdt.SameAmlSameDsdt(c, d);
    }
  }

  lemma UartDecides(c: AcpiConfig, d: AcpiConfig)
    requires Valid(c)
    ensures SpcrOk(Some(Spcr.Spcr(c.uart).value), d) && Dbg2Ok(Some(Dbg2.Dbg2(c.uart).value), d) <==> c.uart == d.uart
  {
    hide Spcr.Spcr, Spcr.DecodedSpcr, Dbg2.Dbg2, Dbg2.DecodedDbg2;
    Spcr.SpcrRoundTrip(c.uart);
    Dbg2.Dbg2RoundTrip(c.uart);
    var x := Dbg2.Dbg2Device(Dbg2.PORT_SERIAL, Dbg2.SUBTYPE_PL011, Mmio32(c.uart.base), c.uart.len);
    var y := Dbg2.Dbg2Device(Dbg2.PORT_SERIAL, Dbg2.SUBTYPE_PL011, Mmio32(d.uart.base), d.uart.len);
    if [x] == [y] {
      assert [x][0] == [y][0];
    }
  }

  lemma TpmDecides(tpm: TpmConfig, d: AcpiConfig)
    ensures Tpm2Ok(Some(Tpm2.Tpm2(tpm).value), d) <==> (d.tpm.Some? ==> tpm.controlArea == d.tpm.value.controlArea)
  {
    hide Tpm2.Tpm2, Tpm2.DecodedTpm2;
    Tpm2.Tpm2RoundTrip(tpm);
  }

  lemma TpmFoundDecides(c: AcpiConfig, d: AcpiConfig)
    ensures Tpm2Ok(if c.tpm.Some? then Some(Tpm2.Tpm2(c.tpm.value).value) else None, d)
            <==> (c.tpm.Some? && d.tpm.Some? ==> c.tpm.value.controlArea == d.tpm.value.controlArea)
  {
    hide Tpm2.Tpm2, Tpm2.DecodedTpm2;
    if c.tpm.Some? {
      TpmDecides(c.tpm.value, d);
    }
  }

  lemma SignaturesDecide(c: AcpiConfig, d: AcpiConfig)
    ensures multiset(ExpectedSignatures(c)) == multiset(ExpectedSignatures(d)) <==> (c.tpm.Some? <==> d.tpm.Some?)
  {
    assert c.tpm.Some? == d.tpm.Some? ==> ExpectedSignatures(c) == ExpectedSignatures(d);
    assert |multiset(ExpectedSignatures(c))| == |ExpectedSignatures(c)|;
    assert |multiset(ExpectedSignatures(d))| == |ExpectedSignatures(d)|;
  }

  lemma SumsHold(c: AcpiConfig, base: u64)
    requires Valid(c) && Encodable(c) && Fits(PartsOf(c), base)
    ensures SumsOk(TableSet(PartsOf(c), base))
  {
    hide Valid, Encodable, PartsOf, Fits, ByteSum, Gpa, Rsdp, BytesOf;
    var p := PartsOf(c);
    PartsAreSound(c);
    forall i | 0 <= i < |TableSet(p, base)| ensures ChecksumOk(TableSet(p, base)[i]) {
      if i == 0 {
        BuiltSets.RsdpIs(p, base);
        RsdpFacts(Gpa(p, base, 1));
      } else {
        TablesAreSdts(p, base, i);
        assert |SignatureOf(p, i)| == 4;
      }
    }
  }

  lemma SetDecides(c: AcpiConfig, d: AcpiConfig, base: u64)
    requires Valid(c) && Encodable(c) && Fits(PartsOf(c), base)
    ensures RightSet(TableSet(PartsOf(c), base), d) <==> (c.tpm.Some? <==> d.tpm.Some?)
  {
    hide Valid, Encodable, PartsOf, Fits, SignaturesIn, ExpectedSignatures, TableSet;
    BuiltSignatures(c, base);
    SignaturesDecide(c, d);
  }

  // ----- the decision -----

  lemma AgreeingParts(c: AcpiConfig, d: AcpiConfig)
    ensures SameButConduit(c, d) <==>
              && c.gic == d.gic && c.mpidrs == d.mpidrs && c.timer == d.timer && c.ecam == d.ecam && c.uart == d.uart
              && Dsdt.SameAml(c, d)
              && (c.tpm.Some? <==> d.tpm.Some?)
              && (c.tpm.Some? && d.tpm.Some? ==> c.tpm.value.controlArea == d.tpm.value.controlArea)
  {
  }

  lemma MatchesBuilt(c: AcpiConfig, d: AcpiConfig, base: u64)
    requires Valid(c) && Encodable(c) && Fits(PartsOf(c), base)
    ensures Matches(TableSet(PartsOf(c), base), d) <==> SameButConduit(c, d)
  {
    hide Valid, Dsdt.SameAml, Encodable, PartsOf, Fits, Find, SameButConduit, MadtOk, GtdtOk, McfgOk, DsdtOk, SpcrOk,
      Dbg2Ok, Tpm2Ok, SumsOk, RightSet, TableSet, Madt.Madt, Gtdt.Gtdt, Mcfg.Mcfg, Spcr.Spcr, Dbg2.Dbg2, Tpm2.Tpm2,
      DsdtBytes;
    AgreeingParts(c, d);
    FindEach(c, base);
    FindTpm(c, base);
    SetDecides(c, d, base);
    SumsHold(c, base);
    MadtDecides(c, d);
    GtdtDecides(c, d);
    McfgDecides(c, d);
    DsdtDecides(c, d);
    UartDecides(c, d);
    TpmFoundDecides(c, d);
  }

  /**
    `verify` decides config equality: tables built from `c` and read back
    match a valid `d` exactly when the two agree on every field but the
    PSCI conduit.
   */
  lemma VerifyDecides(read: Reader, base: u64, size: u64, c: AcpiConfig, d: AcpiConfig)
    requires Built(base, size, c).Ok? && Contains(read, Built(base, size, c).value)
    ensures Walked(read, base).Ok?
    ensures Matches(Walked(read, base).value, d) <==> SameButConduit(c, d)
  {
    hide Valid, Encodable, PartsOf, Total, Contains, Walked, SameButConduit, Matches;
    WalkUndoesBuild(read, base, size, c);
    MatchesBuilt(c, d, base);
  }

  // ----- among built tables, the one thing it cannot see -----

  function Other(conduit: PsciConduit): (r: PsciConduit)
    ensures r != conduit
  {
    if conduit == Hvc then Smc else Hvc
  }

  lemma FadtsDiffer(g: u64)
    ensures Fadt.Fadt(g, Hvc).value != Fadt.Fadt(g, Smc).value
  {
    hide LE, Table;
    var a, b := Fadt.Body(g, Hvc), Fadt.Body(g, Smc);
    Fadt.FadtFacts(g, Hvc);
    Fadt.FadtFacts(g, Smc);
    assert a[93..95] == LE(2, 3) && b[93..95] == LE(2, 1);
    Pow256Values();
    if a == b {
      LEInjective(2, 3, 1);
    }
  }

  lemma FadtOf(p: Parts, base: u64)
    requires Fits(p, base)
    ensures TableSet(p, base)[2].bytes == Fadt.Fadt(Gpa(p, base, 3), p.conduit).value
  {
    hide Gpa, Fits;
  }

  lemma SamePartsElsewhere(c: AcpiConfig, conduit: PsciConduit)
    requires Valid(c) && Encodable(c)
    ensures var d: AcpiConfig := c.(conduit := conduit);
            Valid(d) && Encodable(d) && PartsOf(d).conduit == conduit && Total(PartsOf(d)) == Total(PartsOf(c))
            && forall base: u64 :: Fits(PartsOf(c), base) ==>
                 Fits(PartsOf(d), base) && Gpa(PartsOf(d), base, 3) == Gpa(PartsOf(c), base, 3)
  {
    hide Dsdt.Dsdt, Madt.Madt, Gtdt.Gtdt, Mcfg.Mcfg, Spcr.Spcr, Dbg2.Dbg2, Tpm2.Tpm2, OffsetAt, DsdtBytes;
    var d: AcpiConfig := c.(conduit := conduit);
    SameDsdtElsewhere(c, d);
    assert Madt.Madt(d) == Madt.Madt(c) by { SameMadtElsewhere(c, d); }
    assert LeafBytes(d) == LeafBytes(c);
    assert Lens(PartsOf(d)) == Lens(PartsOf(c));
  }

  lemma SameDsdtElsewhere(c: AcpiConfig, d: AcpiConfig)
    requires Valid(c) && Encodable(c) && Valid(d) && Encodable(d) && SameButConduit(c, d)
    ensures DsdtBytes(c) == DsdtBytes(d)
  {
    hide Valid, Encodable, Dsdt.Dsdt;
    var x, y := DsdtBytes(c), DsdtBytes(d);
    Dsdt.SameAmlSameDsdt(c, d);
  }

  lemma SameMadtElsewhere(c: AcpiConfig, d: AcpiConfig)
    requires Valid(c) && Valid(d) && SameButConduit(c, d)
    ensures Madt.Madt(c) == Madt.Madt(d)
  {
    assert c.mpidrs == d.mpidrs && c.gic == d.gic;
    assert Madt.Structures(c) == Madt.Structures(d);
  }

  /**
    Tables built for one conduit match a config with the other, although the
    build for that config has another FADT.
   */
  lemma ConduitGoesUnnoticed(read: Reader, base: u64, size: u64, c: AcpiConfig)
    requires Built(base, size, c).Ok? && Contains(read, Built(base, size, c).value)
    ensures var d: AcpiConfig := c.(conduit := Other(c.conduit));
            && Valid(d) && Walked(read, base).Ok? && Matches(Walked(read, base).value, d)
            && Built(base, size, d).Ok? && Walked(read, base) != Built(base, size, d)
  {
    hide Valid, Encodable, PartsOf, Total, Contains, Walked, Matches, TableSet, BytesOf;
    var d: AcpiConfig := c.(conduit := Other(c.conduit));
    SamePartsElsewhere(c, d.conduit);
    VerifyDecides(read, base, size, c, d);
    WalkUndoesBuild(read, base, size, c);
    FadtOf(PartsOf(c), base);
    FadtOf(PartsOf(d), base);
    KeepsConduit(c);
    FadtsDiffer(Gpa(PartsOf(c), base, 3));
    assert Built(base, size, c).value[2] != Built(base, size, d).value[2];
  }

  lemma KeepsConduit(c: AcpiConfig)
    requires Valid(c) && Encodable(c)
    ensures PartsOf(c).conduit == c.conduit
  {
    hide Valid, Encodable, DsdtBytes, LeafBytes;
  }

  /** A config like any that boots: one CPU, no TPM and no USB. */
  function Sample(conduit: PsciConduit): (c: AcpiConfig) {
    AcpiConfig(conduit, [0], GicConfig(0x800_0000, 0x80a_0000, 0x2_0000), TimerConfig([13, 14, 11, 10], true),
      EcamConfig(0x1000_0000, 0, 0),
               PciConfig(0x2000_0000, 0x1000_0000, [3, 4, 5, 6]), UartConfig(0x900_0000, 0x1000, 1), None, None)
  }

  lemma SampleIsValid(conduit: PsciConduit)
    ensures Valid(Sample(conduit)) && Encodable(Sample(conduit))
  {
    var c := Sample(conduit);
    assert c.mpidrs[..0] == [];
    assert forall i :: 0 <= i < 4 ==> c.timer.ppis[i] <= 15 && SpiGsiv(c.pci.intxSpis[i]) <= SPI_LAST;
  }

  /** So the promise that only the expected config's tables pass fails for this one. */
  lemma SampleGoesUnnoticed()
    ensures Built(0x4000_0000, 0x10_0000, Sample(Hvc)).Ok? && Valid(Sample(Smc))
    ensures Matches(Built(0x4000_0000, 0x10_0000, Sample(Hvc)).value, Sample(Smc))
    ensures Built(0x4000_0000, 0x10_0000, Sample(Hvc)) != Built(0x4000_0000, 0x10_0000, Sample(Smc))
  {
    hide Valid, Encodable, Matches, Built, Walked, Contains;
    var read := SampleMemory();
    SampleIsValid(Smc);
    ConduitGoesUnnoticed(read, 0x4000_0000, 0x10_0000, Sample(Hvc));
    WalkUndoesBuild(read, 0x4000_0000, 0x10_0000, Sample(Hvc));
  }

  lemma SampleMemory() returns (read: Reader)
    ensures Built(0x4000_0000, 0x10_0000, Sample(Hvc)).Ok?
    ensures Contains(read, Built(0x4000_0000, 0x10_0000, Sample(Hvc)).value)
  {
    hide Valid, Encodable, PartsOf, Total, TableSet, Written, Contains, ImageReader, GoodLayout;
    var c := Sample(Hvc);
    SampleIsValid(Hvc);
    BuiltRelocation.SmallTotal(c);
    var ts := Built(0x4000_0000, 0x10_0000, c).value;
    LayoutHolds(0x4000_0000, 0x10_0000, c);
    var image := Zeros(0x10_0000);
    SampleRead(image, ts);
    read := ImageReader(Written(image, 0x4000_0000, ts, |ts|), 0x4000_0000);
  }

  lemma SampleRead(image: seq<byte>, ts: seq<PlacedTable>)
    requires |image| == 0x10_0000 && GoodLayout(ts, 0x4000_0000, 0x10_0000)
    ensures forall i :: 0 <= i < |ts| ==> InImage(ts[i], 0x4000_0000, |image|)
    ensures Contains(ImageReader(Written(image, 0x4000_0000, ts, |ts|), 0x4000_0000), ts)
  {
    hide Written, Contains, ImageReader;
    WrittenContains(image, 0x4000_0000, ts);
  }
}
