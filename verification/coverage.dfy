/** Which bytes of a table `verify` compares: with the others fixed, it accepts one byte string. */
module Coverage {
  import opened Results
  import opened AcpiErrors
  import opened Bytes
  import opened Sdt
  import opened Config
  import opened Fields
  import opened Layout
  import opened Tables
  import opened Verify
  import opened Drift
  import Moving
  import Madt
  import Gtdt
  import Mcfg
  import Spcr
  import Dbg2
  import Tpm2
  import Fadt
  import Xsdt
  import Dsdt

  // ----- the bytes that are read -----

  /** Bytes of one MADT structure that end up in the listing. */
  predicate ReadInStructure(kind: byte, j: int) {
    if kind == Madt.GICC_TYPE then 8 <= j < 16 || 60 <= j < 76
    else if kind == Madt.GICD_TYPE then 8 <= j < 16 || j == 20
    else if kind == Madt.GICR_TYPE then 4 <= j < 16
    else false
  }

  predicate ReadInStructures(structs: seq<seq<byte>>, j: int) {
    if structs == [] || structs[0] == [] then false
    else if j < |structs[0]| then ReadInStructure(structs[0][0], j)
    else ReadInStructures(structs[1..], j - |structs[0]|)
  }

  ghost predicate ReadInMadt(u: seq<byte>, j: int) {
    Madt.Tile(Madt.Contents(u)).Some? && ReadInStructures(Madt.Tile(Madt.Contents(u)).value, j - 44)
  }

  /** Byte `j` of the built table `u` is one `verify` compares; for the timer flags, only their low three bits. */
  ghost predicate ReadAt(u: PlacedTable, j: int) {
    if u.signature == Madt.SIGNATURE then ReadInMadt(u.bytes, j)
    else if u.signature == Gtdt.SIGNATURE then 48 <= j < 80
    else if u.signature == Mcfg.SIGNATURE then 44 <= j < 56
    else if u.signature == Spcr.SIGNATURE then j == 36 || 40 <= j < 53 || 54 <= j < 58
    else if u.signature == Dbg2.SIGNATURE then 56 <= j < 60 || 66 <= j < 82
    else if u.signature == Tpm2.SIGNATURE then 36 <= j < 38 || 40 <= j < 52
    else u.signature == Dsdt.SIGNATURE
  }

  predicate IsSumByte(signature: seq<byte>, j: int) {
    if signature == RSDP_SIGNATURE then j == RSDP_CHECKSUM_OFFSET || j == RSDP_EXT_CHECKSUM_OFFSET
      else j == CHECKSUM_OFFSET
  }

  /** The timer flags agree above their low three bits. */
  ghost predicate HighFlagsSame(t: seq<byte>, u: seq<byte>) {
    |t| == |u| && (80 <= |u| ==> forall i :: 0 <= i < 4 ==> U32At(t, 52 + 8 * i) / 8 == U32At(u, 52 + 8 * i) / 8)
  }

  /** The two tables agree on everything `verify` does not compare. */
  ghost predicate SameElsewhere(t: PlacedTable, u: PlacedTable) {
    && t.signature == u.signature && t.gpa == u.gpa && |t.bytes| == |u.bytes|
    && (forall j :: 0 <= j < |u.bytes| && !ReadAt(u, j) && !IsSumByte(u.signature, j) ==> t.bytes[j] == u.bytes[j])
    && (u.signature == Gtdt.SIGNATURE ==> HighFlagsSame(t.bytes, u.bytes))
  }

  // ----- values decide bytes -----

  /** Equal little-endian values are equal bytes. */
  lemma SameValue(t: seq<byte>, u: seq<byte>, lo: nat, hi: nat)
    requires |t| == |u| && lo <= hi <= |u| && FromLE(t[lo..hi]) == FromLE(u[lo..hi])
    ensures forall j :: lo <= j < hi ==> t[j] == u[j]
  {
    hide FromLE;
    FromLEInjective(t[lo..hi], u[lo..hi]);
    assert forall j :: lo <= j < hi ==> t[lo..hi][j - lo] == t[j] && u[lo..hi][j - lo] == u[j];
  }

  lemma SameGas(t: seq<byte>, u: seq<byte>, lo: nat)
    requires |t| == |u| && lo + 12 <= |u| && ParseGas(t[lo..lo + 12]) == ParseGas(u[lo..lo + 12])
    ensures forall j :: lo <= j < lo + 12 ==> t[j] == u[j]
  {
    hide FromLE;
    var x, y := t[lo..lo + 12], u[lo..lo + 12];
    SameValue(x, y, 4, 12);
    assert forall j :: 0 <= j < 12 ==> x[j] == y[j];
    assert forall j :: lo <= j < lo + 12 ==> x[j - lo] == t[j] && y[j - lo] == u[j];
  }

  /** With every other byte equal, a zero sum leaves one checksum byte. */
  lemma SumDecides(t: seq<byte>, u: seq<byte>)
    requires |t| == |u| && CHECKSUM_OFFSET < |u| && ByteSum(t) == 0 && ByteSum(u) == 0
    requires forall j :: 0 <= j < |u| && j != CHECKSUM_OFFSET ==> t[j] == u[j]
    ensures t == u
  {
    Moving.SumsDecide(t, u, CHECKSUM_OFFSET);
  }

  lemma RsdpSumsDecide(t: seq<byte>, u: seq<byte>)
    requires |t| == |u| == RSDP_LEN && RsdpChecksumsOk(t) && RsdpChecksumsOk(u)
    requires forall j :: 0 <= j < RSDP_LEN && j != RSDP_CHECKSUM_OFFSET && j != RSDP_EXT_CHECKSUM_OFFSET ==>
               t[j] == u[j]
    ensures t == u
  {
    hide ByteSum;
    var x, y := t[..RSDP_V1_LEN], u[..RSDP_V1_LEN];
    assert forall j :: 0 <= j < RSDP_V1_LEN ==> x[j] == t[j] && y[j] == u[j];
    Moving.SumsDecide(x, y, RSDP_CHECKSUM_OFFSET);
    Moving.SumsDecide(t, u, RSDP_EXT_CHECKSUM_OFFSET);
  }

  /** The header is kept, so the table is cut in the same place. */
  lemma BodyKept(t: seq<byte>, u: seq<byte>, signature: Signature)
    requires HEADER_LEN <= |t| == |u| && TableBody(u, signature) == Ok(u) && U32At(u, 4) == |u|
    requires forall j :: 0 <= j < 8 ==> t[j] == u[j]
    ensures TableBody(t, signature) == Ok(t) && U32At(t, 4) == |t| && t[..4] == u[..4]
  {
    hide FromLE;
    assert t[..4] == u[..4] && t[4..8] == u[4..8];
    assert t[..|t|] == t;
  }

  // ----- one table at a time -----

  lemma SpcrFixed(t: seq<byte>, e: AcpiConfig)
    requires var u := Spcr.Spcr(e.uart).value;
             && |t| == |u| == 80 && ByteSum(t) == 0 && SpcrOk(Some(t), e)
             && forall j :: 0 <= j < 80 && !(j == 36 || 40 <= j < 53 || 54 <= j < 58) && j != CHECKSUM_OFFSET ==>
                  t[j] == u[j]
    ensures t == Spcr.Spcr(e.uart).value
  {
    hide Spcr.Spcr, FromLE, ParseGas, ByteSum, TableBody;
    var u := Spcr.Spcr(e.uart).value;
    Spcr.SpcrRoundTrip(e.uart);
    SpcrBody(e.uart);
    BodyKept(t, u, Spcr.SIGNATURE);
    SameGas(t, u, 40);
    SameValue(t, u, 54, 58);
    SumDecides(t, u);
  }

  lemma SpcrBody(uart: UartConfig)
    ensures var u := Spcr.Spcr(uart).value; |u| == 80 && TableBody(u, Spcr.SIGNATURE) == Ok(u)
  {
    hide Spcr.Body, TableBody;
    TableBodyOfTable(Spcr.SIGNATURE, 2, Spcr.Body(uart));
  }

  lemma McfgFixed(t: seq<byte>, e: AcpiConfig)
    requires Mcfg.HasBusZero(e.ecam)
    requires var u := Mcfg.Mcfg(e.ecam).value;
             && |t| == |u| == 60 && ByteSum(t) == 0 && McfgOk(Some(t), e)
             && forall j :: 0 <= j < 60 && !(44 <= j < 56) && j != CHECKSUM_OFFSET ==> t[j] == u[j]
    ensures t == Mcfg.Mcfg(e.ecam).value
  {
    hide Mcfg.Mcfg, FromLE, ByteSum, TableBody;
    var u := Mcfg.Mcfg(e.ecam).value;
    Mcfg.McfgRoundTrip(e.ecam);
    McfgBody(e.ecam);
    BodyKept(t, u, Mcfg.SIGNATURE);
    OneAllocation(t);
    OneAllocation(u);
    var a, b := Mcfg.AllocationAt(t, 44), Mcfg.AllocationAt(u, 44);
    assert Windows([a])[0] == Window(a) == (e.ecam.base, 0, e.ecam.startBus, e.ecam.endBus);
    assert [b][0] == Mcfg.McfgAllocation(e.ecam.base - e.ecam.startBus * 0x10_0000, 0, e.ecam.startBus, e.ecam.endBus);
    SameBase(a.base, b.base, a.startBus, e.ecam.base);
    SameValue(t, u, 44, 52);
    SameValue(t, u, 52, 54);
    SumDecides(t, u);
  }

  lemma SameBase(a: u64, b: u64, bus: byte, base: u64)
    requires (a + bus * 0x10_0000) % U64 == base && b == base - bus * 0x10_0000
    ensures a == b
  {
  }

  lemma OneAllocation(t: seq<byte>)
    requires |t| == 60 && TableBody(t, Mcfg.SIGNATURE) == Ok(t)
    ensures Mcfg.DecodedMcfg(t) == Ok([Mcfg.AllocationAt(t, 44)])
  {
    hide FromLE, TableBody;
    assert Mcfg.EntryCount(60) == 1;
    assert Mcfg.DecodedMcfg(t).value == [Mcfg.AllocationAt(t, Mcfg.START)];
  }

  lemma McfgBody(ecam: EcamConfig)
    requires Mcfg.HasBusZero(ecam)
    ensures var u := Mcfg.Mcfg(ecam).value; |u| == 60 && TableBody(u, Mcfg.SIGNATURE) == Ok(u)
  {
    hide Mcfg.Body, TableBody;
    TableBodyOfTable(Mcfg.SIGNATURE, 1, Mcfg.Body(ecam));
  }

  lemma Tpm2Fixed(t: seq<byte>, tpm: TpmConfig, e: AcpiConfig)
    requires e.tpm == Some(tpm)
    requires var u := Tpm2.Tpm2(tpm).value;
             && |t| == |u| == 76 && ByteSum(t) == 0 && Tpm2Ok(Some(t), e)
             && forall j :: 0 <= j < 76 && !(36 <= j < 38 || 40 <= j < 52) && j != CHECKSUM_OFFSET ==> t[j] == u[j]
    ensures t == Tpm2.Tpm2(tpm).value
  {
    hide Tpm2.Tpm2, FromLE, ByteSum;
    var u := Tpm2.Tpm2(tpm).value;
    Tpm2.Tpm2RoundTrip(tpm);
    SameValue(t, u, 36, 38);
    SameValue(t, u, 40, 48);
    SameValue(t, u, 48, 52);
    SumDecides(t, u);
  }

  lemma Dbg2Fixed(t: seq<byte>, e: AcpiConfig)
    requires var u := Dbg2.Dbg2(e.uart).value;
             && |t| == |u| == 84 && ByteSum(t) == 0 && Dbg2Ok(Some(t), e)
             && forall j :: 0 <= j < 84 && !(56 <= j < 60 || 66 <= j < 82) && j != CHECKSUM_OFFSET ==> t[j] == u[j]
    ensures t == Dbg2.Dbg2(e.uart).value
  {
    hide Dbg2.Dbg2, FromLE, ByteSum, TableBody, ParseGas, Dbg2.DecodedDbg2;
    var u := Dbg2.Dbg2(e.uart).value;
    Dbg2.Dbg2RoundTrip(e.uart);
    Dbg2Shape(e.uart);
    BodyKept(t, u, Dbg2.SIGNATURE);
    assert t[36..40] == u[36..40] && t[40..44] == u[40..44] && t[45..47] == u[45..47] && t[62..64] == u[62..64]
      && t[64..66] == u[64..66];
    OneDevice(t);
    OneDevice(u);
    SameValue(t, u, 56, 58);
    SameValue(t, u, 58, 60);
    SameGas(t, u, 66);
    SameValue(t, u, 78, 82);
    SumDecides(t, u);
  }

  /** The one device of a table laid out like the built one. */
  lemma OneDevice(t: seq<byte>)
    requires |t| == 84 && TableBody(t, Dbg2.SIGNATURE) == Ok(t) && U32At(t, 36) == 44 && U32At(t, 40) == 1
             && U16At(t, 45) == 40
    requires U16At(t, 62) == 22 && U16At(t, 64) == 34
    ensures ParseGas(t[66..78]).Ok? && U32At(t, 78) < U32
    ensures Dbg2.DecodedDbg2(t)
              == Ok([Dbg2.Dbg2Device(U16At(t, 56), U16At(t, 58), ParseGas(t[66..78]).value, U32At(t, 78))])
  {
    hide FromLE, TableBody, Dbg2.DecodeDevice, Dbg2.DecodeDevices, ParseGas;
    FieldsFit(t);
    GasParses(t[66..78]);
    DeviceIs(t);
    Dbg2.DecodeDevicesStep(t, 44, 1);
    Dbg2.DecodeDevicesDone(t, 84);
    var d := Dbg2.DecodeDevice(t[44..84]).value;
    assert [d] + [] == [d];
  }

  lemma GasParses(s: seq<byte>)
    requires |s| == 12
    ensures ParseGas(s).Ok?
  {
  }

  lemma DeviceIs(t: seq<byte>)
    requires |t| == 84 && U16At(t, 62) == 22 && U16At(t, 64) == 34 && ParseGas(t[66..78]).Ok?
    ensures U32At(t, 78) < U32
    ensures Dbg2.DecodeDevice(t[44..84])
            == Ok(Dbg2.Dbg2Device(U16At(t, 56), U16At(t, 58), ParseGas(t[66..78]).value, U32At(t, 78)))
  {
    hide FromLE, ParseGas;
    SubSlice(t, 44, 84, 18, 20);
    SubSlice(t, 44, 84, 20, 22);
    SubSlice(t, 44, 84, 12, 14);
    SubSlice(t, 44, 84, 14, 16);
    SubSlice(t, 44, 84, 22, 34);
    SubSlice(t, 44, 84, 34, 38);
    FieldsFit(t);
  }

  lemma Dbg2Shape(uart: UartConfig)
    ensures var u := Dbg2.Dbg2(uart).value;
            && |u| == 84 && TableBody(u, Dbg2.SIGNATURE) == Ok(u)
            && U32At(u, 36) == 44 && U32At(u, 40) == 1 && U16At(u, 45) == 40 && U16At(u, 62) == 22 && U16At(u, 64) == 34
  {
    hide Dbg2.Body, Dbg2.Info, TableBody, LE;
    var u, b := Dbg2.Dbg2(uart).value, Dbg2.Body(uart);
    TableBodyOfTable(Dbg2.SIGNATURE, 0, b);
    Dbg2.BodyReads(uart);
    BodySlice(u, b, 36, 40);
    U32AtLE(u, 36, 44);
    BodySlice(u, b, 40, 44);
    U32AtLE(u, 40, 1);
    BodySlice(u, b, 44, 84);
    InfoOffsets(uart);
    SubSlice(u, 44, 84, 1, 3);
    SubSlice(u, 44, 84, 18, 20);
    SubSlice(u, 44, 84, 20, 22);
    U16AtLE(u, 45, 40);
    U16AtLE(u, 62, 22);
    U16AtLE(u, 64, 34);
  }

  lemma InfoOffsets(uart: UartConfig)
    ensures var d := Dbg2.Info(uart); d[1..3] == LE(2, 40) && d[18..20] == LE(2, 22) && d[20..22] == LE(2, 34)
  {
    hide LE, EncodeGas;
  }

  lemma FlagsDecide(f: nat, g: nat)
    requires f / 8 == g / 8 && f % 4 == 0 && g % 4 == 0 && ((f / 4) % 2 == 1 <==> (g / 4) % 2 == 1)
    ensures f == g
  {
    FlagsAre(f);
    FlagsAre(g);
  }

  lemma FlagsAre(f: nat)
    requires f % 4 == 0
    ensures f == 8 * (f / 8) + if (f / 4) % 2 == 1 then 4 else 0
  {
  }

  lemma GtdtFixed(t: seq<byte>, e: AcpiConfig)
    requires Gtdt.PpisFit(e.timer)
    requires var u := Gtdt.Gtdt(e.timer).value;
             && |t| == |u| == 104 && ByteSum(t) == 0 && GtdtOk(Some(t), e) && HighFlagsSame(t, u)
             && forall j :: 0 <= j < 104 && !(48 <= j < 80) && j != CHECKSUM_OFFSET ==> t[j] == u[j]
    ensures t == Gtdt.Gtdt(e.timer).value
  {
    hide Gtdt.Gtdt, FromLE, ByteSum, TableBody, Gtdt.PpisFit;
    var u := Gtdt.Gtdt(e.timer).value;
    Gtdt.GtdtRoundTrip(e.timer);
    GtdtBody(e.timer);
    BodyKept(t, u, Gtdt.SIGNATURE);
    forall i | 0 <= i < 4 ensures forall j :: 48 + 8 * i <= j < 56 + 8 * i ==> t[j] == u[j] {
      TimerFixed(t, u, e, i);
    }
    forall j | 48 <= j < 80 ensures t[j] == u[j] {
      var i := (j - 48) / 8;
      assert 48 + 8 * i <= j < 56 + 8 * i;
    }
    SumDecides(t, u);
  }

  lemma TimerFixed(t: seq<byte>, u: seq<byte>, e: AcpiConfig, i: nat)
    requires i < 4 && |t| == |u| == 104 && HighFlagsSame(t, u)
    requires TableBody(t, Gtdt.SIGNATURE) == Ok(t) && TableBody(u, Gtdt.SIGNATURE) == Ok(u)
    requires GtdtOk(Some(t), e) && Gtdt.DecodedGtdt(u).Ok?
    requires Gtdt.DecodedGtdt(u).value.gsivs[i] == PpiGsiv(e.timer.ppis[i])
    requires Gtdt.DecodedGtdt(u).value.flags[i] == Gtdt.TimerFlags(e.timer)
    ensures forall j :: 48 + 8 * i <= j < 56 + 8 * i ==> t[j] == u[j]
  {
    hide FromLE, TableBody, PpiGsiv;
    var x, y := U32At(t, 52 + 8 * i), U32At(u, 52 + 8 * i);
    assert Gtdt.DecodedGtdt(t).value.gsivs[i] == U32At(t, 48 + 8 * i);
    assert Gtdt.DecodedGtdt(t).value.flags[i] == x;
    FlagsDecide(x, y);
    SameValue(t, u, 48 + 8 * i, 52 + 8 * i);
    SameValue(t, u, 52 + 8 * i, 56 + 8 * i);
  }

  lemma GtdtBody(timer: TimerConfig)
    requires Gtdt.PpisFit(timer)
    ensures var u := Gtdt.Gtdt(timer).value; |u| == 104 && TableBody(u, Gtdt.SIGNATURE) == Ok(u)
  {
    hide Gtdt.Body, TableBody;
    TableBodyOfTable(Gtdt.SIGNATURE, 3, Gtdt.Body(timer));
  }

  // ----- the MADT -----

  /** The same kind and length, and the same bytes where nothing is read. */
  ghost predicate AlikeStructure(x: seq<byte>, y: seq<byte>) {
    && 2 <= |x| == |y| && x[0] == y[0] && x[1] == y[1]
    && forall j :: 0 <= j < |y| && !ReadInStructure(y[0], j) ==> x[j] == y[j]
  }

  ghost predicate AlikeStructures(xs: seq<seq<byte>>, ys: seq<seq<byte>>) {
    |xs| == |ys| && forall i :: 0 <= i < |ys| ==> AlikeStructure(xs[i], ys[i])
  }

  lemma AlikeReadable(xs: seq<seq<byte>>, ys: seq<seq<byte>>)
    requires AlikeStructures(xs, ys) && Madt.Readable(ys)
    ensures Madt.Readable(xs)
  {
    forall i | 0 <= i < |xs| ensures Madt.IsStructure(xs[i]) && Madt.LongEnough(xs[i]) {
      assert AlikeStructure(xs[i], ys[i]);
      assert Madt.IsStructure(ys[i]) && Madt.LongEnough(ys[i]);
    }
  }

  /** What a structure adds decides the bytes that are read. */
  lemma AddDecides(a: Madt.MadtInfo, x: seq<byte>, b: Madt.MadtInfo, y: seq<byte>)
    requires AlikeStructure(x, y) && Madt.IsStructure(x) && Madt.LongEnough(x) && Madt.IsStructure(y)
             && Madt.LongEnough(y)
    requires Madt.Add(a, x) == Madt.Add(b, y)
    ensures a == b && x == y
  {
    hide FromLE;
    FieldsFit(x);
    FieldsFit(y);
    if y[0] == Madt.GICC_TYPE {
      GiccDecides(a, x, b, y);
    } else if y[0] == Madt.GICD_TYPE {
      assert Madt.Add(a, x).gicds == a.gicds + [(U64At(x, 8), x[20])]
        && Madt.Add(b, y).gicds == b.gicds + [(U64At(y, 8), y[20])];
      LastSame(a.gicds, (U64At(x, 8), x[20]), b.gicds, (U64At(y, 8), y[20]));
      SameValue(x, y, 8, 16);
    } else if y[0] == Madt.GICR_TYPE {
      assert Madt.Add(a, x).gicrs == a.gicrs + [(U64At(x, 4), U32At(x, 12))];
      assert Madt.Add(b, y).gicrs == b.gicrs + [(U64At(y, 4), U32At(y, 12))];
      LastSame(a.gicrs, (U64At(x, 4), U32At(x, 12)), b.gicrs, (U64At(y, 4), U32At(y, 12)));
      SameValue(x, y, 4, 12);
      SameValue(x, y, 12, 16);
    }
    assert forall j :: 0 <= j < |y| ==> x[j] == y[j];
  }

  lemma LastSame<T>(a: seq<T>, x: T, b: seq<T>, y: T)
    requires a + [x] == b + [y]
    ensures a == b && x == y
  {
    assert |a| == |b|;
    assert (a + [x])[..|a|] == a && (b + [y])[..|b|] == b && (a + [x])[|a|] == x && (b + [y])[|b|] == y;
  }

  lemma GiccDecides(a: Madt.MadtInfo, x: seq<byte>, b: Madt.MadtInfo, y: seq<byte>)
    requires AlikeStructure(x, y) && Madt.IsStructure(x) && Madt.LongEnough(x) && Madt.IsStructure(y)
             && Madt.LongEnough(y)
    requires y[0] == Madt.GICC_TYPE && Madt.Add(a, x) == Madt.Add(b, y)
    ensures a == b && forall j :: 0 <= j < |y| ==> x[j] == y[j]
  {
    hide FromLE;
    FieldsFit(x);
    FieldsFit(y);
    var g, h := Madt.GiccInfo(U32At(x, 8), U32At(x, 12), U64At(x, 60), U64At(x, 68)),
                Madt.GiccInfo(U32At(y, 8), U32At(y, 12), U64At(y, 60), U64At(y, 68));
    assert Madt.Add(a, x).giccs == a.giccs + [g] && Madt.Add(b, y).giccs == b.giccs + [h];
    LastSame(a.giccs, g, b.giccs, h);
    SameValue(x, y, 8, 12);
    SameValue(x, y, 12, 16);
    SameValue(x, y, 60, 68);
    SameValue(x, y, 68, 76);
  }

  lemma CollectStep(xs: seq<seq<byte>>)
    requires Madt.Readable(xs) && xs != []
    ensures var n := |xs| - 1;
            && Madt.Readable(xs[..n]) && Madt.IsStructure(xs[n]) && Madt.LongEnough(xs[n])
            && Madt.Collect(xs) == Madt.Add(Madt.Collect(xs[..n]), xs[n])
  {
    hide Madt.Add, Madt.LongEnough, Madt.IsStructure;
  }

  lemma AlikeInit(xs: seq<seq<byte>>, ys: seq<seq<byte>>)
    requires AlikeStructures(xs, ys) && ys != []
    ensures var n := |ys| - 1; |xs| == |ys| && AlikeStructure(xs[n], ys[n]) && AlikeStructures(xs[..n], ys[..n])
  {
    hide AlikeStructure;
  }

  lemma {:induction false} CollectDecides(xs: seq<seq<byte>>, ys: seq<seq<byte>>)
    requires AlikeStructures(xs, ys) && Madt.Readable(xs) && Madt.Readable(ys) && Madt.Collect(xs) == Madt.Collect(ys)
    ensures xs == ys
  {
    hide AlikeStructure, Madt.Add, Madt.LongEnough, Madt.IsStructure, Madt.Readable, Madt.Collect;
    if ys != [] {
      var n := |ys| - 1;
      AlikeInit(xs, ys);
      CollectStep(xs);
      CollectStep(ys);
      AddDecides(Madt.Collect(xs[..n]), xs[n], Madt.Collect(ys[..n]), ys[n]);
      CollectDecides(xs[..n], ys[..n]);
      assert xs[..n] + [xs[n]] == xs && ys[..n] + [ys[n]] == ys;
    }
  }

  /** `s` cut where the structures `ys` are cut. */
  function Cut(s: seq<byte>, ys: seq<seq<byte>>): (xs: seq<seq<byte>>)
    requires |s| == |Flatten(ys)|
    ensures |xs| == |ys| && Flatten(xs) == s
    ensures forall i :: 0 <= i < |ys| ==> |xs[i]| == |ys[i]|
  {
    if ys == [] then []
    else
      var n := |ys[0]|;
      var rest := Cut(s[n..], ys[1..]);
      var xs := [s[..n]] + rest;
      assert xs[1..] == rest && s[..n] + s[n..] == s;
      xs
  }

  lemma {:induction false} CutIsAlike(s: seq<byte>, ys: seq<seq<byte>>)
    requires |s| == |Flatten(ys)| && forall i :: 0 <= i < |ys| ==> Madt.IsStructure(ys[i])
    requires forall j :: 0 <= j < |s| && !ReadInStructures(ys, j) ==> s[j] == Flatten(ys)[j]
    ensures AlikeStructures(Cut(s, ys), ys)
  {
    hide AlikeStructure;
    if ys != [] {
      var y, n, whole := ys[0], |ys[0]|, Flatten(ys);
      assert Madt.IsStructure(y);
      assert whole == y + Flatten(ys[1..]);
      FirstIsAlike(s, ys);
      forall j | 0 <= j < |s[n..]| && !ReadInStructures(ys[1..], j) ensures s[n..][j] == Flatten(ys[1..])[j] {
        assert ReadInStructures(ys, n + j) == ReadInStructures(ys[1..], j);
        assert s[n + j] == whole[n + j];
      }
      assert forall i :: 0 <= i < |ys[1..]| ==> ys[1..][i] == ys[i + 1];
      CutIsAlike(s[n..], ys[1..]);
      var xs := Cut(s, ys);
      assert xs[0] == s[..n] && xs[1..] == Cut(s[n..], ys[1..]);
      forall i | 0 <= i < |ys| ensures AlikeStructure(xs[i], ys[i]) {
        if i > 0 {
          assert xs[i] == xs[1..][i - 1] && ys[i] == ys[1..][i - 1];
        }
      }
    }
  }

  lemma FirstIsAlike(s: seq<byte>, ys: seq<seq<byte>>)
    requires ys != [] && |s| == |Flatten(ys)| && Madt.IsStructure(ys[0])
    requires forall j :: 0 <= j < |s| && !ReadInStructures(ys, j) ==> s[j] == Flatten(ys)[j]
    ensures |ys[0]| <= |s| && AlikeStructure(s[..|ys[0]|], ys[0])
  {
    var y, n := ys[0], |ys[0]|;
    forall j | 0 <= j < n && !ReadInStructure(y[0], j) ensures s[j] == y[j] {
      assert !ReadInStructures(ys, j) && Flatten(ys)[j] == y[j];
    }
    assert !ReadInStructure(y[0], 0) && !ReadInStructure(y[0], 1);
  }

  /** Contents cut like the built ones and listing the same are the same. */
  lemma ContentsFixed(s: seq<byte>, ys: seq<seq<byte>>)
    requires |s| == |Flatten(ys)| && Madt.Readable(ys)
    requires forall j :: 0 <= j < |s| && !ReadInStructures(ys, j) ==> s[j] == Flatten(ys)[j]
    ensures Madt.Tile(s).Some? && Madt.Readable(Madt.Tile(s).value) && |Madt.Tile(s).value| == |ys|
    ensures Madt.Collect(Madt.Tile(s).value) == Madt.Collect(ys) ==> s == Flatten(ys)
  {
    hide Madt.Tile, Madt.Collect, ReadInStructures, Madt.LongEnough, AlikeStructure;
    CutIsAlike(s, ys);
    var xs := Cut(s, ys);
    AlikeReadable(xs, ys);
    Madt.TilingIsTile(xs, s);
    if Madt.Collect(xs) == Madt.Collect(ys) {
      CollectDecides(xs, ys);
    }
  }

  /** Bytes agree outside what is read, before the structures and in them. */
  lemma MadtElsewhere(t: seq<byte>, u: seq<byte>, ys: seq<seq<byte>>)
    requires |t| == |u| && 44 <= |u| && u[44..] == Flatten(ys) && Madt.Tile(Madt.Contents(u)) == Some(ys)
    requires forall j :: 0 <= j < |u| && !ReadInMadt(u, j) && j != CHECKSUM_OFFSET ==> t[j] == u[j]
    ensures forall j :: 0 <= j < 44 && j != CHECKSUM_OFFSET ==> t[j] == u[j]
    ensures forall j :: 0 <= j < |u| - 44 && !ReadInStructures(ys, j) ==> t[44..][j] == Flatten(ys)[j]
  {
    hide ReadInStructures, Madt.Tile, Madt.Contents;
    forall j | 0 <= j < 44 ensures !ReadInMadt(u, j) {
      NotBefore(ys, j - 44);
    }
    forall j | 0 <= j < |u| - 44 && !ReadInStructures(ys, j) ensures t[44..][j] == Flatten(ys)[j] {
      assert !ReadInMadt(u, 44 + j);
      assert t[44 + j] == u[44 + j] == u[44..][j];
    }
  }

  lemma MadtFixed(t: seq<byte>, e: AcpiConfig)
    requires Valid(e)
    requires var u := Madt.Madt(e).value;
             && |t| == |u| && ByteSum(t) == 0 && MadtOk(Some(t), e)
             && forall j :: 0 <= j < |u| && !ReadInMadt(u, j) && j != CHECKSUM_OFFSET ==> t[j] == u[j]
    ensures t == Madt.Madt(e).value
  {
    hide Madt.Madt, FromLE, ByteSum, TableBody, Madt.Tile, Madt.Collect, Madt.Describes, MadtMatches, Valid,
      ReadInStructures, Madt.Readable, ReadInMadt, Madt.Structures, Flatten;
    var u := Madt.Madt(e).value;
    Madt.MadtRoundTrip(e);
    MadtShape(e);
    var ys := Madt.Structures(e);
    MadtElsewhere(t, u, ys);
    BodyKept(t, u, Madt.SIGNATURE);
    ContentsFixed(t[44..], ys);
    MatchesDescribes(Madt.Collect(Madt.Tile(t[44..]).value), e);
    assert t[44..] == u[44..];
    assert forall j :: 44 <= j < |u| ==> t[j] == t[44..][j - 44] && u[j] == u[44..][j - 44];
    SumDecides(t, u);
  }

  lemma NotBefore(ys: seq<seq<byte>>, j: int)
    requires j < 0
    ensures !ReadInStructures(ys, j)
  {
  }

  /** A listing that passes is the config's own. */
  lemma MatchesDescribes(info: Madt.MadtInfo, e: AcpiConfig)
    requires |e.mpidrs| <= MAX_CPUS && MadtMatches(info, e)
    ensures info == Madt.Describes(e)
  {
    var d := Madt.Describes(e);
    forall i | 0 <= i < |e.mpidrs| ensures info.giccs[i] == d.giccs[i] {
      assert GiccMatches(info.giccs[i], i, e.mpidrs[i]);
    }
  }

  lemma MadtShape(e: AcpiConfig)
    requires Valid(e)
    ensures |e.mpidrs| <= MAX_CPUS
    ensures var u, ys := Madt.Madt(e).value, Madt.Structures(e);
            && 44 <= |u| && u[44..] == Flatten(ys) && Madt.Tile(Madt.Contents(u)) == Some(ys)
            && |ys| <= Madt.MAX_ENTRIES
            && Madt.Readable(ys) && Madt.Collect(ys) == Madt.Describes(e)
  {
    hide Madt.Gicc, Madt.Gicd, Madt.Gicr, Madt.Tile, Madt.Collect, Madt.Describes;
    var u, ys := Madt.Madt(e).value, Madt.Structures(e);
    Madt.BodyLength(e);
    TableFacts(NewHeader(Madt.SIGNATURE, 6), Madt.Body(e));
    DropHead(Zeros(Madt.FIXED_LEN), Flatten(ys));
    assert u[44..] == u[HEADER_LEN..][Madt.FIXED_LEN..];
    Madt.CollectStructures(e);
    Madt.TilingIsTile(ys, u[44..]);
  }

  // ----- whole lists -----

  /** In a list with the expected signatures in order, each is found where it is expected. */
  lemma FindAt(ts: seq<PlacedTable>, e: AcpiConfig, i: nat)
    requires SignaturesIn(ts) == ExpectedSignatures(e) && i < |ts|
    ensures Find(ts, ExpectedSignatures(e)[i]) == Some(ts[i].bytes)
  {
    hide ExpectedSignatures, Find;
    ExpectedDiffer(e);
    forall j | 0 <= j < |ts| ensures ts[j].signature == ExpectedSignatures(e)[j] {
      assert SignaturesIn(ts)[j] == ts[j].signature;
    }
    FindFirst(ts, ExpectedSignatures(e)[i], i);
  }

  lemma FindNoTpm(ts: seq<PlacedTable>, e: AcpiConfig)
    requires SignaturesIn(ts) == ExpectedSignatures(e) && e.tpm.None?
    ensures Find(ts, Tpm2.SIGNATURE) == None
  {
    hide ExpectedSignatures, Find;
    NoTpmExpected(e);
    forall j | 0 <= j < |ts| ensures ts[j].signature != Tpm2.SIGNATURE {
      assert SignaturesIn(ts)[j] in ExpectedSignatures(e);
    }
    FindNone(ts, Tpm2.SIGNATURE);
  }

  ghost predicate ContentsOk(ts: seq<PlacedTable>, e: AcpiConfig)
    requires |ts| == |ExpectedSignatures(e)|
  {
    && DsdtOk(Some(ts[3].bytes), e)
    && MadtOk(Some(ts[4].bytes), e)
    && GtdtOk(Some(ts[5].bytes), e)
    && McfgOk(Some(ts[6].bytes), e)
    && SpcrOk(Some(ts[7].bytes), e)
    && Dbg2Ok(Some(ts[8].bytes), e)
    && (e.tpm.Some? ==> Tpm2Ok(Some(ts[9].bytes), e))
  }

  lemma MatchesByPosition(ts: seq<PlacedTable>, e: AcpiConfig)
    requires SignaturesIn(ts) == ExpectedSignatures(e)
    ensures |ts| == |ExpectedSignatures(e)|
    ensures Matches(ts, e) <==> SumsOk(ts) && ContentsOk(ts, e)
  {
    hide SumsOk, MadtOk, GtdtOk, McfgOk, DsdtOk, SpcrOk, Dbg2Ok, SignaturesIn, Find;
    assert |SignaturesIn(ts)| == |ts|;
    NamedLeaves(e);
    FindAt(ts, e, 3);
    FindAt(ts, e, 4 + 0);
    FindAt(ts, e, 4 + 1);
    FindAt(ts, e, 4 + 2);
    FindAt(ts, e, 4 + 3);
    FindAt(ts, e, 4 + 4);
    if e.tpm.Some? {
      assert ExpectedSignatures(e)[9] == Tpm2.SIGNATURE;
      FindAt(ts, e, 9);
    } else {
      FindNoTpm(ts, e);
    }
  }

  lemma LikeSignatures(ts: seq<PlacedTable>, us: seq<PlacedTable>)
    requires |ts| == |us| && forall i :: 0 <= i < |us| ==> ts[i].signature == us[i].signature
    ensures SignaturesIn(ts) == SignaturesIn(us)
  {
  }

  // ----- what is left free decides the rest -----

  lemma PlainTable(t: PlacedTable, u: PlacedTable)
    requires SameElsewhere(t, u) && u.signature in {Xsdt.SIGNATURE, Fadt.SIGNATURE} && HEADER_LEN <= |u.bytes|
    requires ChecksumOk(t) && ChecksumOk(u)
    ensures t == u
  {
    hide ByteSum;
    assert |u.signature| == 4;
    assert forall j :: !ReadAt(u, j);
    SumDecides(t.bytes, u.bytes);
  }

  lemma RsdpTable(t: PlacedTable, u: PlacedTable)
    requires SameElsewhere(t, u) && u.signature == RSDP_SIGNATURE && ChecksumOk(t) && ChecksumOk(u)
    ensures t == u
  {
    hide RsdpChecksumsOk;
    assert |u.signature| == 8;
    assert forall j :: !ReadAt(u, j);
    RsdpSumsDecide(t.bytes, u.bytes);
  }

  lemma LeafTable(t: PlacedTable, u: PlacedTable, e: AcpiConfig)
    requires SameElsewhere(t, u) && ChecksumOk(t) && Valid(e) && Mcfg.HasBusZero(e.ecam)
    requires || (u.signature == Madt.SIGNATURE && u.bytes == Madt.Madt(e).value && MadtOk(Some(t.bytes), e))
             || (u.signature == Gtdt.SIGNATURE && u.bytes == Gtdt.Gtdt(e.timer).value && GtdtOk(Some(t.bytes), e))
             || (u.signature == Mcfg.SIGNATURE && u.bytes == Mcfg.Mcfg(e.ecam).value && McfgOk(Some(t.bytes), e))
             || (u.signature == Spcr.SIGNATURE && u.bytes == Spcr.Spcr(e.uart).value && SpcrOk(Some(t.bytes), e))
             || (u.signature == Dbg2.SIGNATURE && u.bytes == Dbg2.Dbg2(e.uart).value && Dbg2Ok(Some(t.bytes), e))
    ensures t == u
  {
    hide ByteSum, Madt.Madt, Gtdt.Gtdt, Mcfg.Mcfg, Spcr.Spcr, Dbg2.Dbg2, MadtOk, GtdtOk, McfgOk, SpcrOk, Dbg2Ok,
      HighFlagsSame, ReadInMadt;
    assert |u.signature| == 4 && |RSDP_SIGNATURE| == 8;
    if u.signature == Madt.SIGNATURE {
      MadtFixed(t.bytes, e);
    } else if u.signature == Gtdt.SIGNATURE {
      GtdtBody(e.timer);
      GtdtFixed(t.bytes, e);
    } else if u.signature == Mcfg.SIGNATURE {
      McfgBody(e.ecam);
      McfgFixed(t.bytes, e);
    } else if u.signature == Spcr.SIGNATURE {
      SpcrBody(e.uart);
      SpcrFixed(t.bytes, e);
    } else {
      Dbg2Shape(e.uart);
      Dbg2Fixed(t.bytes, e);
    }
  }

  lemma TpmTable(t: PlacedTable, u: PlacedTable, e: AcpiConfig)
    requires SameElsewhere(t, u) && ChecksumOk(t) && e.tpm.Some?
    requires u.signature == Tpm2.SIGNATURE && u.bytes == Tpm2.Tpm2(e.tpm.value).value && Tpm2Ok(Some(t.bytes), e)
    ensures t == u
  {
    hide ByteSum, Tpm2.Tpm2, Tpm2Ok;
    assert |u.signature| == 4;
    Tpm2.Tpm2RoundTrip(e.tpm.value);
    Tpm2Fixed(t.bytes, e.tpm.value, e);
  }

  lemma SignatureAt(e: AcpiConfig, i: nat)
    requires i < |ExpectedSignatures(e)|
    ensures ExpectedSignatures(e)[i]
            == if i == 0 then RSDP_SIGNATURE
               else if i == 1 then Xsdt.SIGNATURE
               else if i == 2 then Fadt.SIGNATURE
               else if i == 3 then Dsdt.SIGNATURE
               else if i == 4 then Madt.SIGNATURE
               else if i == 5 then Gtdt.SIGNATURE
               else if i == 6 then Mcfg.SIGNATURE
               else if i == 7 then Spcr.SIGNATURE
               else if i == 8 then Dbg2.SIGNATURE
               else Tpm2.SIGNATURE
  {
  }

  lemma ExpectedCount(e: AcpiConfig)
    ensures |ExpectedSignatures(e)| == if e.tpm.Some? then 10 else 9
  {
  }

  /** The tables a passing list must hold, one by one. */
  lemma TableFixed(ts: seq<PlacedTable>, e: AcpiConfig, base: u64, i: nat)
    requires Valid(e) && Encodable(e) && Fits(PartsOf(e), base) && i < |TableSet(PartsOf(e), base)|
    requires |ts| == |TableSet(PartsOf(e), base)| == |ExpectedSignatures(e)| && SumsOk(ts) && ContentsOk(ts, e)
    requires SameElsewhere(ts[i], TableSet(PartsOf(e), base)[i])
    ensures ts[i] == TableSet(PartsOf(e), base)[i]
  {
    hide Encodable, PartsOf, Fits, TableSet, SameElsewhere, ChecksumOk, MadtOk, GtdtOk, McfgOk, SpcrOk, Dbg2Ok, Tpm2Ok,
      ExpectedSignatures, LeafBytes, DsdtBytes, Madt.Madt, Gtdt.Gtdt, Mcfg.Mcfg, Spcr.Spcr, Dbg2.Dbg2, Tpm2.Tpm2,
      Dsdt.Dsdt;
    var us := TableSet(PartsOf(e), base);
    SumsHold(e, base);
    BuiltBytes(e, base);
    FirstLeaves(e);
    BuiltSignatures(e, base);
    assert SignaturesIn(us)[i] == us[i].signature;
    SignatureAt(e, i);
    ExpectedCount(e);
    if i == 0 {
      RsdpTable(ts[i], us[i]);
    } else if i == 1 || i == 2 {
      LongEnough(e, base, i);
      PlainTable(ts[i], us[i]);
    } else if i == 3 {
      DsdtTable(ts[i], us[i], e);
    } else if i < 9 {
      assert us[4 + (i - 4)].bytes == LeafBytes(e)[i - 4];
      LeafTable(ts[i], us[i], e);
    } else {
      LastLeaf(e);
      assert us[4 + 5].bytes == LeafBytes(e)[5];
      TpmTable(ts[i], us[i], e);
    }
  }

  lemma DsdtTable(t: PlacedTable, u: PlacedTable, e: AcpiConfig)
    requires Valid(e) && Encodable(e) && SameElsewhere(t, u) && u.bytes == DsdtBytes(e) && DsdtOk(Some(t.bytes), e)
    ensures t == u
  {
    hide Valid, Encodable, DsdtBytes, Dsdt.Dsdt, ReadAt, HighFlagsSame;
  }

  lemma LongEnough(e: AcpiConfig, base: u64, i: nat)
    requires Valid(e) && Encodable(e) && Fits(PartsOf(e), base) && (i == 1 || i == 2)
    ensures HEADER_LEN <= |TableSet(PartsOf(e), base)[i].bytes|
  {
    hide Valid, Encodable, PartsOf, Fits, BytesOf;
    PartsAreSound(e);
    TablesAreSdts(PartsOf(e), base, i);
  }

  /**
    For every list of tables: it passes and agrees with the build on all that
    is not compared exactly when it is the build.
   */
  lemma PassingAndElsewhere(ts: seq<PlacedTable>, base: u64, size: u64, e: AcpiConfig)
    requires Built(base, size, e).Ok?
    ensures var us := Built(base, size, e).value;
            ts == us <==> Matches(ts, e) && |ts| == |us| && forall i :: 0 <= i < |us| ==> SameElsewhere(ts[i], us[i])
  {
    hide Valid, Encodable, PartsOf, Total, Matches, SameElsewhere, TableSet, SumsOk, ContentsOk, SignaturesIn,
      ExpectedSignatures;
    var us := Built(base, size, e).value;
    if ts == us {
      MatchesBuilt(e, e, base);
      forall i | 0 <= i < |us| ensures SameElsewhere(us[i], us[i]) {
        SameAsItself(us[i]);
      }
    }
    if Matches(ts, e) && |ts| == |us| && forall i :: 0 <= i < |us| ==> SameElsewhere(ts[i], us[i]) {
      BuiltSignatures(e, base);
      forall i | 0 <= i < |us| ensures ts[i].signature == us[i].signature {
        ElsewhereSignature(ts[i], us[i]);
      }
      LikeSignatures(ts, us);
      MatchesByPosition(ts, e);
      forall i | 0 <= i < |us| ensures ts[i] == us[i] {
        TableFixed(ts, e, base, i);
      }
    }
  }

  lemma SameAsItself(u: PlacedTable)
    ensures SameElsewhere(u, u)
  {
    hide ReadAt;
  }

  lemma ElsewhereSignature(t: PlacedTable, u: PlacedTable)
    requires SameElsewhere(t, u)
    ensures t.signature == u.signature
  {
    hide ReadAt;
  }

  // ----- and it really is free -----

  /** Whatever sums to zero passes as the XSDT or the FADT. */
  lemma FreeTables(ts: seq<PlacedTable>, e: AcpiConfig, i: nat, bytes: seq<byte>)
    requires SignaturesIn(ts) == ExpectedSignatures(e) && Matches(ts, e) && (i == 1 || i == 2) && ByteSum(bytes) == 0
    ensures i < |ts| && Matches(ts[i := ts[i].(bytes := bytes)], e)
  {
    hide Matches, MadtOk, GtdtOk, McfgOk, DsdtOk, SpcrOk, Dbg2Ok, Tpm2Ok, ByteSum, ExpectedSignatures, SignaturesIn;
    MatchesByPosition(ts, e);
    ExpectedCount(e);
    var us := ts[i := ts[i].(bytes := bytes)];
    LikeSignatures(us, ts);
    MatchesByPosition(us, e);
    SignatureAt(e, i);
    assert SignaturesIn(ts)[i] == ts[i].signature && |ts[i].signature| == 4;
    assert us[i].signature != RSDP_SIGNATURE;
  }

  /** `b` with one byte changed and the checksum made right again. */
  function Resealed(b: seq<byte>, at: nat, v: byte): (r: seq<byte>)
    requires CHECKSUM_OFFSET < |b| && at < |b|
    ensures |r| == |b|
  {
    var z := b[at := v][CHECKSUM_OFFSET := 0];
    z[CHECKSUM_OFFSET := Checksum(z)]
  }

  lemma ResealedFacts(b: seq<byte>, at: nat, v: byte)
    requires CHECKSUM_OFFSET < |b| && at < |b| && at != CHECKSUM_OFFSET
    ensures var r := Resealed(b, at, v);
            ByteSum(r) == 0 && r[at] == v
            && forall j :: 0 <= j < |b| && j != at && j != CHECKSUM_OFFSET ==> r[j] == b[j]
  {
    hide ByteSum, Checksum;
    SealSumsToZero(b[at := v][CHECKSUM_OFFSET := 0], CHECKSUM_OFFSET);
  }

  /** Bytes outside the compared ones do not change what an SPCR says. */
  lemma SpcrUnread(t: seq<byte>, u: seq<byte>)
    requires |t| == |u| == 80 && TableBody(u, Spcr.SIGNATURE) == Ok(u) && U32At(u, 4) == 80
    requires forall j :: 0 <= j < 80 && (j < 8 || j == 36 || 40 <= j < 53 || 54 <= j < 58) ==> t[j] == u[j]
    ensures Spcr.DecodedSpcr(t) == Spcr.DecodedSpcr(u)
  {
    hide FromLE, TableBody, ParseGas;
    BodyKept(t, u, Spcr.SIGNATURE);
    assert t[40..52] == u[40..52] && t[54..58] == u[54..58];
  }

  const BAUD_RATE: nat := 58

  /** A build with the console's baud rate zeroed and the table resealed. */
  ghost function WithoutBaud(us: seq<PlacedTable>): (r: seq<PlacedTable>)
    requires |us| > 7 && |us[7].bytes| == 80
  {
    us[7 := us[7].(bytes := Resealed(us[7].bytes, BAUD_RATE, 0))]
  }

  lemma BaudIsSeven(uart: UartConfig)
    ensures Spcr.Spcr(uart).value[BAUD_RATE] == 7
  {
    hide LE, EncodeGas;
    var u, b := Spcr.Spcr(uart).value, Spcr.Body(uart);
    TableFacts(NewHeader(Spcr.SIGNATURE, 2), b);
    BodySlice(u, b, 58, 59);
    assert b[22] == 7;
    assert u[58] == u[58..59][0];
  }

  lemma BaudUnread(e: AcpiConfig)
    ensures var u := Spcr.Spcr(e.uart).value;
            && |u| == 80
            && var t := Resealed(u, BAUD_RATE, 0);
               t != u && ByteSum(t) == 0 && SpcrOk(Some(t), e)
  {
    hide Resealed, Spcr.Spcr, ByteSum, Spcr.DecodedSpcr;
    var u := Spcr.Spcr(e.uart).value;
    Spcr.SpcrRoundTrip(e.uart);
    SpcrBody(e.uart);
    BaudIsSeven(e.uart);
    ResealedFacts(u, BAUD_RATE, 0);
    SpcrUnread(Resealed(u, BAUD_RATE, 0), u);
  }

  lemma SpcrIsThere(base: u64, size: u64, e: AcpiConfig)
    requires Built(base, size, e).Ok?
    ensures var us := Built(base, size, e).value;
            && |us| > 7 && us[7].bytes == Spcr.Spcr(e.uart).value && us[7].signature == Spcr.SIGNATURE
            && SignaturesIn(us) == ExpectedSignatures(e) && Matches(us, e)
  {
    hide Encodable, PartsOf, Total, Matches, TableSet, SignaturesIn, ExpectedSignatures, LeafBytes, DsdtBytes,
      Spcr.Spcr, Madt.Madt, Gtdt.Gtdt, Mcfg.Mcfg, Dbg2.Dbg2;
    var us := Built(base, size, e).value;
    BuiltSignatures(e, base);
    BuiltBytes(e, base);
    ExpectedCount(e);
    FirstLeaves(e);
    assert us[4 + 3].bytes == LeafBytes(e)[3];
    SignatureAt(e, 7);
    assert SignaturesIn(us)[7] == us[7].signature;
    MatchesBuilt(e, e, base);
  }

  /** Every build passes with that one byte changed, with the same config and conduit. */
  lemma BaudGoesUnnoticed(base: u64, size: u64, e: AcpiConfig)
    requires Built(base, size, e).Ok?
    ensures var us := Built(base, size, e).value;
            |us| > 7 && |us[7].bytes| == 80 && WithoutBaud(us) != us && Matches(WithoutBaud(us), e)
  {
    hide Built, Matches, SumsOk, SignaturesIn, ExpectedSignatures, Resealed, MadtOk, GtdtOk, McfgOk, DsdtOk, SpcrOk,
      Dbg2Ok, Tpm2Ok, Spcr.Spcr, ByteSum;
    var us := Built(base, size, e).value;
    SpcrIsThere(base, size, e);
    BaudUnread(e);
    ExpectedCount(e);
    var ts := WithoutBaud(us);
    assert ts[7].bytes != us[7].bytes;
    LikeSignatures(ts, us);
    MatchesByPosition(us, e);
    MatchesByPosition(ts, e);
    SumsStay(us, ts, 7);
  }

  lemma SumsStay(us: seq<PlacedTable>, ts: seq<PlacedTable>, i: nat)
    requires SumsOk(us) && i < |us| == |ts| && (forall k :: 0 <= k < |us| && k != i ==> ts[k] == us[k])
    requires ts[i].signature == us[i].signature && |us[i].signature| == 4 && ByteSum(ts[i].bytes) == 0
    ensures SumsOk(ts)
  {
    hide ByteSum;
    assert |RSDP_SIGNATURE| == 8;
    forall k | 0 <= k < |ts| ensures ChecksumOk(ts[k]) {
      if k != i {
        assert ChecksumOk(us[k]);
      }
    }
  }
}
