/** Resource descriptors for `_CRS`: section 6.4 of ACPI 6.5. */
module Resource {
  import opened Results
  import opened AcpiErrors
  import opened Bytes
  import opened Aml

  datatype Usage = Producer | Consumer

  const WORD_ADDRESS_TAG: byte := 0x88
  const DWORD_ADDRESS_TAG: byte := 0x87
  const MEMORY32_FIXED_TAG: byte := 0x86
  const EXTENDED_INTERRUPT_TAG: byte := 0x89
  const END_TAG: byte := 0x79

  function UsageFlags(usage: Usage): (r: byte) {
    if usage == Producer then 0x0c else 0x0d
  }

  function WordBusNumber(first: nat, last: nat): (r: Encoded)
    requires first < 0x1_0000 && last < 0x1_0000
  {
    if last < first || last - first + 1 > 0xffff then Err(BadConfig)
    else Ok([WORD_ADDRESS_TAG, 13, 0, 2, UsageFlags(Producer), 0]
            + LE(2, 0) + LE(2, first) + LE(2, last) + LE(2, 0) + LE(2, last - first + 1))
  }

  function DWordMemory(usage: Usage, base: u64, len: nat): (r: Encoded) {
    if base >= U32 || len >= U32 || base + len == 0 || base + len - 1 >= U32 || len == 0 then Err(BadConfig)
    else Ok([DWORD_ADDRESS_TAG, 23, 0, 0, UsageFlags(usage), 1]
            + LE(4, 0) + LE(4, base) + LE(4, base + len - 1) + LE(4, 0) + LE(4, len))
  }

  function Memory32Fixed(base: u64, len: nat): (r: Encoded) {
    if base >= U32 || len >= U32 || base + len > U32 || len == 0 then Err(BadConfig)
    else Ok([MEMORY32_FIXED_TAG, 9, 0, 1] + LE(4, base) + LE(4, len))
  }

  function ExtendedInterrupt(gsiv: u32): (r: seq<byte>) {
    [EXTENDED_INTERRUPT_TAG, 6, 0, 9, 1] + LE(4, gsiv)
  }

  function Template(descriptors: seq<byte>): (r: seq<byte>) {
    descriptors + [END_TAG, 0]
  }

  function ResourceTemplate(descriptors: seq<byte>): (r: Encoded) {
    Buffer(Template(descriptors))
  }

  lemma WordBusNumberInjective(a: nat, b: nat, c: nat, d: nat)
    requires a < 0x1_0000 && b < 0x1_0000 && c < 0x1_0000 && d < 0x1_0000
    requires WordBusNumber(a, b).Ok? && WordBusNumber(a, b) == WordBusNumber(c, d)
    ensures a == c && b == d
  {
    var x, y := WordBusNumber(a, b).value, WordBusNumber(c, d).value;
    assert x[8..10] == LE(2, a) && y[8..10] == LE(2, c);
    assert x[10..12] == LE(2, b) && y[10..12] == LE(2, d);
    Pow256Values();
    LEInjective(2, a, c);
    LEInjective(2, b, d);
  }

  lemma DWordMemoryInjective(usage: Usage, base: u64, len: nat, base': u64, len': nat)
    requires DWordMemory(usage, base, len).Ok?
    requires DWordMemory(usage, base, len) == DWordMemory(usage, base', len')
    ensures base == base' && len == len'
    ensures |DWordMemory(usage, base, len).value| == 26
  {
    hide LE;
    var x, y := DWordMemory(usage, base, len).value, DWordMemory(usage, base', len').value;
    assert x[10..14] == LE(4, base) && y[10..14] == LE(4, base');
    assert x[22..26] == LE(4, len) && y[22..26] == LE(4, len');
    Pow256Values();
    LEInjective(4, base, base');
    LEInjective(4, len, len');
  }

  lemma Memory32FixedInjective(base: u64, len: nat, base': u64, len': nat)
    requires Memory32Fixed(base, len).Ok?
    requires Memory32Fixed(base, len) == Memory32Fixed(base', len')
    ensures base == base' && len == len'
  {
    var x, y := Memory32Fixed(base, len).value, Memory32Fixed(base', len').value;
    assert x[4..8] == LE(4, base) && y[4..8] == LE(4, base');
    assert x[8..12] == LE(4, len) && y[8..12] == LE(4, len');
    Pow256Values();
    LEInjective(4, base, base');
    LEInjective(4, len, len');
  }

  lemma ExtendedInterruptInjective(gsiv: u32, gsiv': u32)
    requires ExtendedInterrupt(gsiv) == ExtendedInterrupt(gsiv')
    ensures gsiv == gsiv'
  {
    assert ExtendedInterrupt(gsiv)[5..9] == LE(4, gsiv);
    assert ExtendedInterrupt(gsiv')[5..9] == LE(4, gsiv');
    Pow256Values();
    LEInjective(4, gsiv, gsiv');
  }

  /** Two templates of descriptors with equal first lengths agree descriptor by descriptor. */
  lemma TemplateSplit(a: seq<byte>, b: seq<byte>, c: seq<byte>, d: seq<byte>)
    requires |a| == |c| && Template(a + b) == Template(c + d)
    ensures a == c && b == d
  {
    var x, y := Template(a + b), Template(c + d);
    assert |b| == |d|;
    assert a == x[..|a|] && c == y[..|a|];
    assert b == x[|a|..|a| + |b|] && d == y[|a|..|a| + |b|];
  }

  lemma TemplateInjective(a: seq<byte>, b: seq<byte>)
    requires Template(a) == Template(b)
    ensures a == b
  {
    assert a == Template(a)[..|a|];
    assert b == Template(b)[..|b|];
  }
}

/** The DSDT: `\_SB` with the PCIe root bridge, the xHCI controller and the TPM. */
module Dsdt {
  import opened Results
  import opened AcpiErrors
  import opened Bytes
  import opened Aml
  import opened AmlTree
  import opened Resource
  import opened Config
  import Sdt

  // ----- EisaId (section 19.6.35 of ACPI 6.5) -----

  predicate IsEisaId(id: string) {
    && |id| == 7
    && (forall i :: 0 <= i < 3 ==> 'A' <= id[i] <= 'Z')
    && (forall i :: 3 <= i < 7 ==> IsHex(id[i]))
  }

  function HexDigit(c: char): (r: nat)
    requires IsHex(c)
    ensures r < 16
  {
    if c <= '9' then c as int - '0' as int else c as int - 'A' as int + 10
  }

  function Letter(c: char): (r: nat)
    requires 'A' <= c <= 'Z'
    ensures 1 <= r <= 26
  {
    c as int - 0x40
  }

  /** Three 5-bit letters and four hex digits, most significant byte first in memory. */
  function EisaBytes(id: string): (r: seq<byte>)
    requires IsEisaId(id)
    ensures |r| == 4
  {
    var vendor := Letter(id[0]) * 1024 + Letter(id[1]) * 32 + Letter(id[2]);
    [vendor / 256, vendor % 256, HexDigit(id[3]) * 16 + HexDigit(id[4]), HexDigit(id[5]) * 16 + HexDigit(id[6])]
  }

  function EisaIdValue(id: string): (r: Result<u32, AcpiError>) {
    if !IsEisaId(id) then Err(BadConfig)
    else
      LEOfFromLE(EisaBytes(id));
      Pow256Values();
      Ok(FromLE(EisaBytes(id)))
  }

  /** Distinct EISA ids have distinct values. */
  lemma EisaIdInjective(a: string, b: string)
    requires EisaIdValue(a).Ok? && EisaIdValue(a) == EisaIdValue(b)
    ensures a == b
  {
    LEOfFromLE(EisaBytes(a));
    LEOfFromLE(EisaBytes(b));
    EisaBytesInjective(a, b);
  }

  lemma EisaBytesInjective(a: string, b: string)
    requires IsEisaId(a) && IsEisaId(b) && EisaBytes(a) == EisaBytes(b)
    ensures a == b
  {
    var x, y := EisaBytes(a), EisaBytes(b);
    assert x[0] == y[0] && x[1] == y[1];
    VendorInjective(Letter(a[0]), Letter(a[1]), Letter(a[2]), Letter(b[0]), Letter(b[1]), Letter(b[2]));
    assert x[2] == y[2] && x[3] == y[3];
    HexPairInjective(a[3], a[4], b[3], b[4]);
    HexPairInjective(a[5], a[6], b[5], b[6]);
  }

  predicate IsHex(c: char) {
    '0' <= c <= '9' || 'A' <= c <= 'F'
  }

  lemma HexPairInjective(a: char, b: char, c: char, d: char)
    requires IsHex(a) && IsHex(b) && IsHex(c) && IsHex(d)
    requires HexDigit(a) * 16 + HexDigit(b) == HexDigit(c) * 16 + HexDigit(d)
    ensures a == c && b == d
  {
    assert HexDigit(a) == HexDigit(c) && HexDigit(b) == HexDigit(d);
  }

  lemma VendorInjective(a: nat, b: nat, c: nat, d: nat, e: nat, f: nat)
    requires a < 32 && b < 32 && c < 32 && d < 32 && e < 32 && f < 32
    requires (a * 1024 + b * 32 + c) / 256 == (d * 1024 + e * 32 + f) / 256
    requires (a * 1024 + b * 32 + c) % 256 == (d * 1024 + e * 32 + f) % 256
    ensures a == d && b == e && c == f
  {
  }

  // ----- PCI0 -----

  datatype PrtRoute = PrtRoute(device: nat, pin: nat, gsiv: u32)

  /** Entry `i`: pin `p` of device `d` raises line `(d + p) % 4`. */
  function RouteAt(c: AcpiConfig, i: nat): (r: PrtRoute)
    requires i < 128
    ensures r.device < 32 && r.pin < 4
  {
    PrtRoute(i / 4, i % 4, SpiGsiv(c.pci.intxSpis[(i / 4 + i % 4) % 4]))
  }

  /** Every `_PRT` entry, device-major: 32 devices by 4 pins. */
  function PrtRoutes(c: AcpiConfig): (r: seq<PrtRoute>)
    ensures |r| == 128
    ensures forall i :: 0 <= i < 128 ==> r[i] == RouteAt(c, i)
  {
    seq(128, i requires 0 <= i < 128 => RouteAt(c, i))
  }

  function RoutePackage(r: PrtRoute): (b: Encoded)
    requires r.device < 32 && r.pin < 4
  {
    Package([Integer(r.device * 0x1_0000 + 0xffff), Integer(r.pin), Integer(0), Integer(r.gsiv)])
  }

  function RoutePackages(routes: seq<PrtRoute>): (b: Result<seq<seq<byte>>, AcpiError>)
    requires forall i :: 0 <= i < |routes| ==> routes[i].device < 32 && routes[i].pin < 4
    ensures b.Ok? ==> |b.value| == |routes|
  {
    if routes == [] then Ok([])
    else
      var head :- RoutePackage(routes[0]);
      var tail :- RoutePackages(routes[1..]);
      Ok([head] + tail)
  }

  function EisaId(id: string): (r: Encoded) {
    var v :- EisaIdValue(id);
    Ok(Integer(v))
  }

  /** Wrapping `u64` arithmetic; a backward bus range makes a length no descriptor holds. */
  function EcamLen(c: AcpiConfig): (r: nat) {
    (c.ecam.endBus as int - c.ecam.startBus + 1) * 0x10_0000 % U64
  }

  /** `Name (paths[i], values[i])` for each `i`, or the first error. */
  function NameAll(paths: seq<string>, values: seq<seq<byte>>): (r: Result<seq<seq<byte>>, AcpiError>)
    requires |paths| == |values|
    ensures r.Ok? ==> |r.value| == |paths|
  {
    if paths == [] then Ok([])
    else
      var head :- Name(paths[0], values[0]);
      var tail :- NameAll(paths[1..], values[1..]);
      Ok([head] + tail)
  }

  /** `Device (path) { Name (paths[i], values[i]) ... children }`. */
  function NamedDevice(path: string, paths: seq<string>, values: seq<seq<byte>>, children: seq<seq<byte>>): (r: Encoded)
    requires |paths| == |values|
  {
    var names :- NameAll(paths, values);
    Device(path, Flatten(names + children))
  }

  function Res0(c: AcpiConfig): (r: Encoded) {
    var hid :- EisaId("PNP0C02");
    var window :- DWordMemory(Consumer, c.ecam.base, EcamLen(c));
    var crs :- ResourceTemplate(window);
    NamedDevice("RES0", ["_HID", "_CRS"], [hid, crs], [])
  }

  function PciCrs(c: AcpiConfig): (r: Encoded) {
    var buses :- WordBusNumber(c.ecam.startBus, c.ecam.endBus);
    var window :- DWordMemory(Producer, c.pci.mmioBase, c.pci.mmioLen);
    ResourceTemplate(buses + window)
  }

  function PciRoot(c: AcpiConfig): (r: Encoded) {
    var routes :- RoutePackages(PrtRoutes(c));
    var crs :- PciCrs(c);
    var res0 :- Res0(c);
    var hid :- EisaId("PNP0A08");
    var cid :- EisaId("PNP0A03");
    var prt :- Package(routes);
    NamedDevice("PCI0", PciPaths(), [hid, cid, Integer(0), Integer(c.ecam.startBus), Integer(0), Integer(1), prt, crs],
      [res0])
  }

  function PciPaths(): (r: seq<string>)
    ensures |r| == 8
  {
    ["_HID", "_CID", "_SEG", "_BBN", "_UID", "_CCA", "_PRT", "_CRS"]
  }

  // ----- XHC0, TPM2, and the table -----

  /** `Device (path) { _HID text, _UID 0, _CRS template }`. */
  function StringHidDevice(path: string, hid: string, descriptors: seq<byte>): (r: Encoded) {
    var crs :- ResourceTemplate(descriptors);
    var hidText :- Text(hid);
    NamedDevice(path, ["_HID", "_UID", "_CRS"], [hidText, Integer(0), crs], [])
  }

  function XhciDevice(usb: UsbConfig): (r: Encoded) {
    var window :- Memory32Fixed(usb.mmioBase, usb.mmioLen);
    StringHidDevice("XHC0", "PNP0D10", window + ExtendedInterrupt(SpiGsiv(usb.spi)))
  }

  function TpmDevice(tpm: TpmConfig): (r: Encoded) {
    var window :- Memory32Fixed(tpm.crbBase, tpm.crbLen);
    StringHidDevice("TPM2", "MSFT0101", window)
  }

  // "DSDT"
  const SIGNATURE: Sdt.Signature := [0x44, 0x53, 0x44, 0x54]

  function DevicesAml(c: AcpiConfig): (r: Result<seq<seq<byte>>, AcpiError>) {
    var pci :- PciRoot(c);
    var usb :- if c.usb.None? then Ok([]) else (var d :- XhciDevice(c.usb.value); Ok([d]));
    var tpm :- if c.tpm.None? then Ok([]) else (var d :- TpmDevice(c.tpm.value); Ok([d]));
    Ok([pci] + usb + tpm)
  }

  function Body(c: AcpiConfig): (r: Encoded) {
    var devices :- DevicesAml(c);
    Scope("\\_SB", Flatten(devices))
  }

  function Dsdt(c: AcpiConfig): (r: Result<seq<byte>, AcpiError>) {
    var body :- Body(c);
    Sdt.Table(Sdt.NewHeader(SIGNATURE, 2), body)
  }

  lemma FlattenEach(parts: seq<seq<byte>>)
    requires |parts| == 1
    ensures Flatten(parts) == parts[0]
  {
    assert parts[1..] == [];
  }

  lemma DevicesAre(c: AcpiConfig, parts: seq<seq<byte>>)
    requires PciRoot(c).Ok?
    requires c.usb.Some? ==> XhciDevice(c.usb.value).Ok?
    requires c.tpm.Some? ==> TpmDevice(c.tpm.value).Ok?
    requires parts == [PciRoot(c).value] + (if c.usb.Some? then [XhciDevice(c.usb.value).value] else [])
                      + if c.tpm.Some? then [TpmDevice(c.tpm.value).value] else []
    ensures DevicesAml(c) == Ok(parts)
  {
    hide PciRoot, XhciDevice, TpmDevice;
  }

  /** The source's own steps: devices appended as they are present, then wrapped. */
  method BuildDsdt(c: AcpiConfig) returns (r: Result<seq<byte>, AcpiError>)
    ensures r == Dsdt(c)
  {
    hide PciRoot, XhciDevice, TpmDevice, Scope, Sdt.Table, Flatten;
    var devices :- PciRoot(c);
    ghost var parts := [devices];
    FlattenEach(parts);
    if c.usb.Some? {
      var usb :- XhciDevice(c.usb.value);
      devices := devices + usb;
      FlattenAppend(parts, usb);
      parts := parts + [usb];
    }
    if c.tpm.Some? {
      var tpm :- TpmDevice(c.tpm.value);
      devices := devices + tpm;
      FlattenAppend(parts, tpm);
      parts := parts + [tpm];
    }
    DevicesAre(c, parts);
    var body :- Scope("\\_SB", devices);
    r := Sdt.Table(Sdt.NewHeader(SIGNATURE, 2), body);
  }

  // ----- the same as a tree -----

  function RouteData(r: PrtRoute): (d: Data)
    requires r.device < 32 && r.pin < 4
  {
    Pkg([Num(r.device * 0x1_0000 + 0xffff), Num(r.pin), Num(0), Num(r.gsiv)])
  }

  function RoutesData(routes: seq<PrtRoute>): (ds: seq<Data>)
    requires forall i :: 0 <= i < |routes| ==> routes[i].device < 32 && routes[i].pin < 4
    ensures |ds| == |routes|
    ensures forall i :: 0 <= i < |routes| ==> ds[i] == RouteData(routes[i])
  {
    seq(|routes|, i requires 0 <= i < |routes| => RouteData(routes[i]))
  }

  /** The descriptor fields fit. */
  predicate Describable(c: AcpiConfig) {
    && WordBusNumber(c.ecam.startBus, c.ecam.endBus).Ok?
    && DWordMemory(Producer, c.pci.mmioBase, c.pci.mmioLen).Ok?
    && DWordMemory(Consumer, c.ecam.base, EcamLen(c)).Ok?
    && (c.usb.Some? ==> Memory32Fixed(c.usb.value.mmioBase, c.usb.value.mmioLen).Ok?)
    && (c.tpm.Some? ==> Memory32Fixed(c.tpm.value.crbBase, c.tpm.value.crbLen).Ok?)
  }

  function Eisa(id: string): (d: Data)
    requires IsEisaId(id)
  {
    Num(EisaIdValue(id).value)
  }

  function NameTerms(paths: seq<string>, values: seq<Data>): (ts: seq<Term<string>>)
    requires |paths| == |values|
    ensures |ts| == |paths|
    ensures forall i :: 0 <= i < |ts| ==> ts[i] == NameTerm(paths[i], values[i])
  {
    seq(|paths|, i requires 0 <= i < |paths| => NameTerm(paths[i], values[i]))
  }

  function Res0Data(c: AcpiConfig): (ds: seq<Data>)
    requires Describable(c)
    ensures |ds| == 2
  {
    [Eisa("PNP0C02"), Buf(Template(DWordMemory(Consumer, c.ecam.base, EcamLen(c)).value))]
  }

  function Res0Tree(c: AcpiConfig): (t: Term<string>)
    requires Describable(c)
  {
    DeviceTerm("RES0", NameTerms(["_HID", "_CRS"], Res0Data(c)) + [])
  }

  function PciDescriptors(c: AcpiConfig): (b: seq<byte>)
    requires Describable(c)
  {
    WordBusNumber(c.ecam.startBus, c.ecam.endBus).value + DWordMemory(Producer, c.pci.mmioBase, c.pci.mmioLen).value
  }

  function PciData(c: AcpiConfig): (ds: seq<Data>)
    requires Describable(c)
    ensures |ds| == 8
  {
    [Eisa("PNP0A08"), Eisa("PNP0A03"), Num(0), Num(c.ecam.startBus), Num(0), Num(1),
     Pkg(RoutesData(PrtRoutes(c))), Buf(Template(PciDescriptors(c)))]
  }

  function PciTree(c: AcpiConfig): (t: Term<string>)
    requires Describable(c)
  {
    DeviceTerm("PCI0", NameTerms(PciPaths(), PciData(c)) + [Res0Tree(c)])
  }

  function StringHidTree(path: string, hid: string, descriptors: seq<byte>): (t: Term<string>) {
    DeviceTerm(path, NameTerms(["_HID", "_UID", "_CRS"], [Str(hid), Num(0), Buf(Template(descriptors))]) + [])
  }

  function XhciDescriptors(usb: UsbConfig): (b: seq<byte>)
    requires Memory32Fixed(usb.mmioBase, usb.mmioLen).Ok?
  {
    Memory32Fixed(usb.mmioBase, usb.mmioLen).value + ExtendedInterrupt(SpiGsiv(usb.spi))
  }

  function DeviceTrees(c: AcpiConfig): (ts: seq<Term<string>>)
    requires Describable(c)
  {
    [PciTree(c)]
    + (if c.usb.None? then [] else [StringHidTree("XHC0", "PNP0D10", XhciDescriptors(c.usb.value))])
    + (if c.tpm.None? then []
      else [StringHidTree("TPM2", "MSFT0101", Memory32Fixed(c.tpm.value.crbBase, c.tpm.value.crbLen).value)])
  }

  function Tree(c: AcpiConfig): (ts: seq<Term<string>>)
    requires Describable(c)
  {
    [ScopeTerm("\\_SB", DeviceTrees(c))]
  }

  // ----- the byte builder writes the tree -----

  lemma {:induction false} EncodeTermsFlatten(ts: seq<Term<string>>, parts: seq<seq<byte>>)
    requires |ts| == |parts| && forall i :: 0 <= i < |ts| ==> EncodeTerm(ts[i]) == Ok(parts[i])
    ensures EncodeTerms(ts) == Ok(Flatten(parts))
  {
    if ts != [] {
      assert EncodeTerm(ts[0]) == Ok(parts[0]);
      forall i | 0 <= i < |ts[1..]| ensures EncodeTerm(ts[1..][i]) == Ok(parts[1..][i]) {
        assert EncodeTerm(ts[i + 1]) == Ok(parts[i + 1]);
      }
      EncodeTermsFlatten(ts[1..], parts[1..]);
    }
  }

  lemma {:induction false} EncodeElementsOf(ds: seq<Data>, parts: seq<seq<byte>>)
    requires |ds| == |parts| && forall i :: 0 <= i < |ds| ==> EncodeData(ds[i]) == Ok(parts[i])
    ensures EncodeElements(ds) == Ok(parts)
  {
    if ds != [] {
      assert EncodeData(ds[0]) == Ok(parts[0]);
      EncodeElementsOf(ds[1..], parts[1..]);
      assert [parts[0]] + parts[1..] == parts;
    }
  }

  lemma NameWrites(path: string, value: seq<byte>, d: Data)
    requires EncodeData(d) == Ok(value)
    ensures EncodeTerm(NameTerm(path, d)) == Name(path, value)
  {
    hide EncodeData, NameString;
  }

  lemma {:induction false} NameAllWrites(paths: seq<string>, values: seq<seq<byte>>, ds: seq<Data>)
    requires |paths| == |values| == |ds| && NameAll(paths, values).Ok?
    requires forall i :: 0 <= i < |ds| ==> EncodeData(ds[i]) == Ok(values[i])
    ensures forall i :: 0 <= i < |ds| ==> EncodeTerm(NameTerms(paths, ds)[i]) == Ok(NameAll(paths, values).value[i])
  {
    hide EncodeTerm, EncodeData, Name;
    if paths != [] {
      NameWrites(paths[0], values[0], ds[0]);
      NameAllWrites(paths[1..], values[1..], ds[1..]);
      assert NameTerms(paths, ds)[1..] == NameTerms(paths[1..], ds[1..]);
      forall i | 0 < i < |ds| ensures EncodeTerm(NameTerms(paths, ds)[i]) == Ok(NameAll(paths, values).value[i]) {
        assert NameTerms(paths, ds)[i] == NameTerms(paths[1..], ds[1..])[i - 1];
      }
    }
  }

  lemma NamedDeviceWrites(path: string, paths: seq<string>, values: seq<seq<byte>>, ds: seq<Data>,
                          children: seq<seq<byte>>, trees: seq<Term<string>>)
    requires |paths| == |values| == |ds| && NamedDevice(path, paths, values, children).Ok?
    requires forall i :: 0 <= i < |ds| ==> EncodeData(ds[i]) == Ok(values[i])
    requires |children| == |trees| && forall i :: 0 <= i < |trees| ==> EncodeTerm(trees[i]) == Ok(children[i])
    ensures EncodeTerm(DeviceTerm(path, NameTerms(paths, ds) + trees)) == NamedDevice(path, paths, values, children)
  {
    hide Device, Name, EncodeData;
    NameAllWrites(paths, values, ds);
    EncodeTermsFlatten(NameTerms(paths, ds) + trees, NameAll(paths, values).value + children);
  }

  lemma EncodeRoute(r: PrtRoute)
    requires r.device < 32 && r.pin < 4
    ensures EncodeData(RouteData(r)) == RoutePackage(r)
  {
    EncodeElementsOf(RouteData(r).elements,
      [Integer(r.device * 0x1_0000 + 0xffff), Integer(r.pin), Integer(0), Integer(r.gsiv)]);
  }

  lemma {:induction false} EncodeRoutes(routes: seq<PrtRoute>)
    requires forall i :: 0 <= i < |routes| ==> routes[i].device < 32 && routes[i].pin < 4
    ensures EncodeElements(RoutesData(routes)) == RoutePackages(routes)
  {
    if routes != [] {
      EncodeRoute(routes[0]);
      EncodeRoutes(routes[1..]);
      assert RoutesData(routes)[1..] == RoutesData(routes[1..]);
    }
  }

  lemma Res0WritesTree(c: AcpiConfig)
    requires Res0(c).Ok? && Describable(c)
    ensures EncodeTerm(Res0Tree(c)) == Res0(c)
  {
    hide NamedDevice, DWordMemory, EisaIdValue, Integer, Buffer;
    var values := [EisaId("PNP0C02").value,
      ResourceTemplate(DWordMemory(Consumer, c.ecam.base, EcamLen(c)).value).value];
    NamedDeviceWrites("RES0", ["_HID", "_CRS"], values, Res0Data(c), [], []);
  }

  lemma PciRootWritesTree(c: AcpiConfig)
    requires PciRoot(c).Ok? && Describable(c)
    ensures EncodeTerm(PciTree(c)) == PciRoot(c)
  {
    hide NamedDevice, EisaIdValue, DWordMemory, WordBusNumber, Res0, Res0Tree, Integer, Buffer, Package, RoutesData,
      RoutePackages, PrtRoutes, NameTerms, EncodeTerm, EncodeElements;
    EncodeRoutes(PrtRoutes(c));
    Res0WritesTree(c);
    var values := [
      EisaId("PNP0A08").value, EisaId("PNP0A03").value, Integer(0), Integer(c.ecam.startBus), Integer(0), Integer(1),
      Package(RoutePackages(PrtRoutes(c)).value).value, PciCrs(c).value];
    NamedDeviceWrites("PCI0", PciPaths(), values, PciData(c), [Res0(c).value], [Res0Tree(c)]);
  }

  lemma StringHidWritesTree(path: string, hid: string, descriptors: seq<byte>)
    requires StringHidDevice(path, hid, descriptors).Ok?
    ensures EncodeTerm(StringHidTree(path, hid, descriptors)) == StringHidDevice(path, hid, descriptors)
  {
    hide NamedDevice, Integer, Buffer;
    var values := [Text(hid).value, Integer(0), ResourceTemplate(descriptors).value];
    NamedDeviceWrites(path, ["_HID", "_UID", "_CRS"], values, [Str(hid), Num(0), Buf(Template(descriptors))], [], []);
  }

  lemma PciRootParts(c: AcpiConfig)
    requires PciRoot(c).Ok?
    ensures WordBusNumber(c.ecam.startBus, c.ecam.endBus).Ok?
    ensures DWordMemory(Producer, c.pci.mmioBase, c.pci.mmioLen).Ok?
    ensures DWordMemory(Consumer, c.ecam.base, EcamLen(c)).Ok?
  {
    hide NamedDevice, ResourceTemplate, RoutePackages, Package, EisaId, WordBusNumber, DWordMemory;
  }

  lemma DevicesWriteTrees(c: AcpiConfig)
    requires DevicesAml(c).Ok?
    ensures Describable(c) && EncodeTerms(DeviceTrees(c)) == Ok(Flatten(DevicesAml(c).value))
  {
    hide PciRoot, Res0, StringHidDevice, PciTree, StringHidTree, Memory32Fixed, WordBusNumber, DWordMemory;
    PciRootParts(c);
    PciRootWritesTree(c);
    if c.usb.Some? {
      StringHidWritesTree("XHC0", "PNP0D10", XhciDescriptors(c.usb.value));
    }
    if c.tpm.Some? {
      StringHidWritesTree("TPM2", "MSFT0101", Memory32Fixed(c.tpm.value.crbBase, c.tpm.value.crbLen).value);
    }
    EncodeTermsFlatten(DeviceTrees(c), DevicesAml(c).value);
  }

  /** The DSDT body is the encoding of `Tree(c)`. */
  lemma BodyWritesTree(c: AcpiConfig)
    requires Body(c).Ok?
    ensures Describable(c) && EncodeTerms(Tree(c)) == Body(c)
  {
    hide DevicesAml, DeviceTrees, Describable;
    DevicesWriteTrees(c);
    EncodeTermsFlatten(Tree(c), [Body(c).value]);
    assert Flatten([Body(c).value]) == Body(c).value by {
      FlattenAppend([], Body(c).value);
    }
  }

  // ----- the AML determines what it describes -----

  lemma {:induction false} ResolveAllAt(ts: seq<Term<string>>, i: nat)
    requires EncodeTerms(ts).Ok? && i < |ts|
    ensures |ResolveAll(ts)| == |ts|
    ensures EncodeTerm(ts[i]).Ok? && ResolveAll(ts)[i] == Resolve(ts[i])
  {
    if i > 0 {
      ResolveAllAt(ts[1..], i - 1);
    } else if |ts| > 1 {
      ResolveAllAt(ts[1..], 0);
    }
  }

  /** A device whose body starts with `NameTerms(paths, ds)` shows `ds` after decoding. */
  lemma DeviceValues(path: string, paths: seq<string>, ds: seq<Data>, trees: seq<Term<string>>, i: nat)
    requires |paths| == |ds| && i < |ds|
    requires EncodeTerm(DeviceTerm(path, NameTerms(paths, ds) + trees)).Ok?
    ensures var body := Resolve(DeviceTerm(path, NameTerms(paths, ds) + trees)).body;
            |body| == |ds| + |trees| && body[i].NameTerm? && body[i].value == ds[i]
  {
    hide Device, Name, EncodeData;
    var ts := NameTerms(paths, ds) + trees;
    ResolveAllAt(ts, i);
    assert ts[i] == NameTerm(paths[i], ds[i]);
  }

  lemma RoutesInjective(c: AcpiConfig, d: AcpiConfig)
    requires RoutesData(PrtRoutes(c)) == RoutesData(PrtRoutes(d))
    ensures c.pci.intxSpis == d.pci.intxSpis
  {
    forall i | 0 <= i < 4 ensures c.pci.intxSpis[i] == d.pci.intxSpis[i] {
      assert RouteData(PrtRoutes(c)[i]) == RoutesData(PrtRoutes(c))[i];
      assert RouteData(PrtRoutes(d)[i]) == RoutesData(PrtRoutes(d))[i];
      assert RouteData(RouteAt(c, i)).elements[3] == RouteData(RouteAt(d, i)).elements[3];
      assert i / 4 == 0 && i % 4 == i;
    }
  }

  lemma PciDataInjective(c: AcpiConfig, d: AcpiConfig)
    requires Describable(c) && Describable(d)
    requires PciData(c)[6] == PciData(d)[6] && PciData(c)[7] == PciData(d)[7]
    ensures c.pci == d.pci && c.ecam.startBus == d.ecam.startBus && c.ecam.endBus == d.ecam.endBus
  {
    hide WordBusNumber, DWordMemory, RouteData, RouteAt;
    RoutesInjective(c, d);
    BusLength(c);
    BusLength(d);
    TemplateSplit(WordBusNumber(c.ecam.startBus, c.ecam.endBus).value,
      DWordMemory(Producer, c.pci.mmioBase, c.pci.mmioLen).value,
                  WordBusNumber(d.ecam.startBus, d.ecam.endBus).value,
                    DWordMemory(Producer, d.pci.mmioBase, d.pci.mmioLen).value);
    WordBusNumberInjective(c.ecam.startBus, c.ecam.endBus, d.ecam.startBus, d.ecam.endBus);
    DWordMemoryInjective(Producer, c.pci.mmioBase, c.pci.mmioLen, d.pci.mmioBase, d.pci.mmioLen);
  }

  lemma BusLength(c: AcpiConfig)
    requires Describable(c)
    ensures |WordBusNumber(c.ecam.startBus, c.ecam.endBus).value| == 16
  {
  }

  lemma PciTreeInjective(c: AcpiConfig, d: AcpiConfig)
    requires Describable(c) && Describable(d)
    requires EncodeTerm(PciTree(c)).Ok? && EncodeTerm(PciTree(d)).Ok?
    requires Resolve(PciTree(c)) == Resolve(PciTree(d))
    ensures c.pci == d.pci && c.ecam == d.ecam
  {
    hide PciData, Res0Tree, Describable, Device, PciPaths;
    DeviceValues("PCI0", PciPaths(), PciData(c), [Res0Tree(c)], 6);
    DeviceValues("PCI0", PciPaths(), PciData(d), [Res0Tree(d)], 6);
    DeviceValues("PCI0", PciPaths(), PciData(c), [Res0Tree(c)], 7);
    DeviceValues("PCI0", PciPaths(), PciData(d), [Res0Tree(d)], 7);
    PciDataInjective(c, d);
    ResolveAllAt(PciTree(c).body, 8);
    ResolveAllAt(PciTree(d).body, 8);
    Res0Injective(c, d);
  }

  lemma Res0Injective(c: AcpiConfig, d: AcpiConfig)
    requires Describable(c) && Describable(d)
    requires EncodeTerm(Res0Tree(c)).Ok? && EncodeTerm(Res0Tree(d)).Ok?
    requires Resolve(Res0Tree(c)) == Resolve(Res0Tree(d))
    ensures c.ecam.base == d.ecam.base
  {
    hide DWordMemory, Device, EisaIdValue;
    DeviceValues("RES0", ["_HID", "_CRS"], Res0Data(c), [], 1);
    DeviceValues("RES0", ["_HID", "_CRS"], Res0Data(d), [], 1);
    TemplateInjective(DWordMemory(Consumer, c.ecam.base, EcamLen(c)).value,
      DWordMemory(Consumer, d.ecam.base, EcamLen(d)).value);
    DWordMemoryInjective(Consumer, c.ecam.base, EcamLen(c), d.ecam.base, EcamLen(d));
  }

  lemma StringHidInjective(path: string, hid: string, a: seq<byte>, path': string, hid': string, b: seq<byte>)
    requires EncodeTerm(StringHidTree(path, hid, a)).Ok? && EncodeTerm(StringHidTree(path', hid', b)).Ok?
    requires Resolve(StringHidTree(path, hid, a)) == Resolve(StringHidTree(path', hid', b))
    ensures hid == hid' && a == b
  {
    hide Device, Template;
    var ds := [Str(hid), Num(0), Buf(Template(a))];
    var es := [Str(hid'), Num(0), Buf(Template(b))];
    var paths := ["_HID", "_UID", "_CRS"];
    DeviceValues(path, paths, ds, [], 0);
    DeviceValues(path', paths, es, [], 0);
    DeviceValues(path, paths, ds, [], 2);
    DeviceValues(path', paths, es, [], 2);
    TemplateInjective(a, b);
  }

  lemma XhciInjective(a: UsbConfig, b: UsbConfig)
    requires Memory32Fixed(a.mmioBase, a.mmioLen).Ok?
    requires Memory32Fixed(b.mmioBase, b.mmioLen).Ok?
    requires XhciDescriptors(a) == XhciDescriptors(b)
    ensures a == b
  {
    var x, y := XhciDescriptors(a), XhciDescriptors(b);
    assert x[..12] == Memory32Fixed(a.mmioBase, a.mmioLen).value
      && y[..12] == Memory32Fixed(b.mmioBase, b.mmioLen).value;
    assert x[12..] == ExtendedInterrupt(SpiGsiv(a.spi)) && y[12..] == ExtendedInterrupt(SpiGsiv(b.spi));
    Memory32FixedInjective(a.mmioBase, a.mmioLen, b.mmioBase, b.mmioLen);
    ExtendedInterruptInjective(SpiGsiv(a.spi), SpiGsiv(b.spi));
  }

  /** Agreement on everything the DSDT mentions. */
  ghost predicate SameAml(c: AcpiConfig, d: AcpiConfig) {
    && c.pci == d.pci
    && c.ecam == d.ecam
    && c.usb == d.usb
    && (c.tpm.Some? <==> d.tpm.Some?)
    && (c.tpm.Some? ==> c.tpm.value.crbBase == d.tpm.value.crbBase && c.tpm.value.crbLen == d.tpm.value.crbLen)
  }

  /** The optional devices after PCI0. */
  function Extras(c: AcpiConfig): (ts: seq<Term<string>>)
    requires Describable(c)
    ensures |ts| == (if c.usb.Some? then 1 else 0) + (if c.tpm.Some? then 1 else 0)
    ensures DeviceTrees(c) == [PciTree(c)] + ts
  {
    (if c.usb.None? then [] else [StringHidTree("XHC0", "PNP0D10", XhciDescriptors(c.usb.value))])
    + (if c.tpm.None? then []
      else [StringHidTree("TPM2", "MSFT0101", Memory32Fixed(c.tpm.value.crbBase, c.tpm.value.crbLen).value)])
  }

  lemma ExtrasInjective(c: AcpiConfig, d: AcpiConfig)
    requires Describable(c) && Describable(d)
    requires |Extras(c)| == |Extras(d)|
    requires forall i :: 0 <= i < |Extras(c)| ==> EncodeTerm(Extras(c)[i]).Ok?
    requires forall i :: 0 <= i < |Extras(d)| ==> EncodeTerm(Extras(d)[i]).Ok?
    requires forall i :: 0 <= i < |Extras(c)| ==> Resolve(Extras(c)[i]) == Resolve(Extras(d)[i])
    ensures c.usb == d.usb
    ensures c.tpm.Some? <==> d.tpm.Some?
    ensures c.tpm.Some? ==> c.tpm.value.crbBase == d.tpm.value.crbBase && c.tpm.value.crbLen == d.tpm.value.crbLen
  {
    hide EncodeTerm, Resolve, StringHidTree, XhciDescriptors, Memory32Fixed;
    if |Extras(c)| > 0 {
      var t, u := Extras(c)[0], Extras(d)[0];
      assert Resolve(t) == Resolve(u);
      var (hid, a) := if c.usb.Some? then ("PNP0D10", XhciDescriptors(c.usb.value)) else ("MSFT0101", TpmWindow(c));
      var (hid', b) := if d.usb.Some? then ("PNP0D10", XhciDescriptors(d.usb.value)) else ("MSFT0101", TpmWindow(d));
      StringHidInjective(if c.usb.Some? then "XHC0" else "TPM2", hid, a, if d.usb.Some? then "XHC0"
        else "TPM2", hid', b);
      assert |"PNP0D10"| == 7 && |"MSFT0101"| == 8;
      assert c.usb.Some? <==> d.usb.Some?;
      if c.usb.Some? {
        XhciInjective(c.usb.value, d.usb.value);
      }
      if c.tpm.Some? {
        var k := |Extras(c)| - 1;
        assert Resolve(Extras(c)[k]) == Resolve(Extras(d)[k]);
        StringHidInjective("TPM2", "MSFT0101", TpmWindow(c), "TPM2", "MSFT0101", TpmWindow(d));
        Memory32FixedInjective(c.tpm.value.crbBase, c.tpm.value.crbLen, d.tpm.value.crbBase, d.tpm.value.crbLen);
      }
    }
  }

  function TpmWindow(c: AcpiConfig): (b: seq<byte>)
    requires c.tpm.Some? && Memory32Fixed(c.tpm.value.crbBase, c.tpm.value.crbLen).Ok?
  {
    Memory32Fixed(c.tpm.value.crbBase, c.tpm.value.crbLen).value
  }

  lemma TreesInjective(c: AcpiConfig, d: AcpiConfig)
    requires Describable(c) && Describable(d)
    requires EncodeTerms(DeviceTrees(c)).Ok? && EncodeTerms(DeviceTrees(d)).Ok?
    requires ResolveAll(DeviceTrees(c)) == ResolveAll(DeviceTrees(d))
    ensures SameAml(c, d)
  {
    hide PciTree, Describable;
    var ts, us := DeviceTrees(c), DeviceTrees(d);
    forall i | 0 <= i < |ts|
      ensures |ts| == |us| && EncodeTerm(ts[i]).Ok? && EncodeTerm(us[i]).Ok? && Resolve(ts[i]) == Resolve(us[i])
    {
      ResolveAllAt(ts, i);
      ResolveAllAt(us, 0);
      ResolveAllAt(us, i);
    }
    assert ts[0] == PciTree(c) && us[0] == PciTree(d);
    PciTreeInjective(c, d);
    assert forall i :: 0 <= i < |Extras(c)| ==> Extras(c)[i] == ts[i + 1];
    assert forall i :: 0 <= i < |Extras(d)| ==> Extras(d)[i] == us[i + 1];
    ExtrasInjective(c, d);
  }

  /** Equal DSDTs come only from configs that agree on everything the DSDT mentions. */
  lemma DsdtInjective(c: AcpiConfig, d: AcpiConfig)
    requires Dsdt(c).Ok? && Dsdt(c) == Dsdt(d)
    ensures SameAml(c, d)
  {
    hide Body, DeviceTrees, Describable, SameAml, Sdt.Table;
    var h := Sdt.NewHeader(SIGNATURE, 2);
    Sdt.TableFacts(h, Body(c).value);
    Sdt.TableFacts(h, Body(d).value);
    BodyWritesTree(c);
    BodyWritesTree(d);
    TermsInjective(Tree(c), Tree(d));
    ResolveAllAt(Tree(c), 0);
    ResolveAllAt(Tree(d), 0);
    TreesInjective(c, d);
  }

  lemma SamePciRoot(c: AcpiConfig, d: AcpiConfig)
    requires c.pci == d.pci && c.ecam == d.ecam
    ensures PciRoot(c) == PciRoot(d)
  {
    hide Package, NamedDevice, RoutePackages, WordBusNumber, DWordMemory, ResourceTemplate, EisaId, Integer;
    assert forall i :: 0 <= i < 128 ==> RouteAt(c, i) == RouteAt(d, i);
    assert PrtRoutes(c) == PrtRoutes(d);
  }

  lemma SameAmlSameDsdt(c: AcpiConfig, d: AcpiConfig)
    requires SameAml(c, d)
    ensures Dsdt(c) == Dsdt(d)
  {
    hide PciRoot, Scope, XhciDevice, StringHidDevice, Memory32Fixed, Sdt.Table;
    SamePciRoot(c, d);
  }

  // ----- when the DSDT builds, and how long it is -----

  predicate IsSimple(path: string) {
    |path| == 4 && IsNameSeg(path)
  }

  lemma {:induction false} NameAllLength(paths: seq<string>, values: seq<seq<byte>>)
    requires |paths| == |values| && forall i :: 0 <= i < |paths| ==> IsSimple(paths[i])
    ensures NameAll(paths, values).Ok?
    ensures |Flatten(NameAll(paths, values).value)| == 5 * |paths| + |Flatten(values)|
  {
    hide NameString;
    if paths != [] {
      assert IsSimple(paths[0]);
      SimpleName(paths[0]);
      NameAllLength(paths[1..], values[1..]);
      assert NameAll(paths, values).value[1..] == NameAll(paths[1..], values[1..]).value;
    }
  }

  lemma {:induction false} FlattenConcat(a: seq<seq<byte>>, b: seq<seq<byte>>)
    ensures |Flatten(a + b)| == |Flatten(a)| + |Flatten(b)|
  {
    if a == [] {
      assert a + b == b;
    } else {
      FlattenConcat(a[1..], b);
      assert (a + b)[1..] == a[1..] + b;
    }
  }

  lemma NamedDeviceLength(path: string, paths: seq<string>, values: seq<seq<byte>>, children: seq<seq<byte>>)
    requires |paths| == |values| <= 8 && (forall i :: 0 <= i < |paths| ==> IsSimple(paths[i])) && IsSimple(path)
    requires |Flatten(values)| + |Flatten(children)| <= 0x1_0000
    ensures var r := NamedDevice(path, paths, values, children);
            r.Ok? && |r.value| <= 10 + 5 * |paths| + |Flatten(values)| + |Flatten(children)|
  {
    hide Device, Name;
    NameAllLength(paths, values);
    var names := NameAll(paths, values).value;
    FlattenConcat(names, children);
    DeviceLength(path, Flatten(names + children));
  }

  lemma DeviceLength(path: string, body: seq<byte>)
    requires IsSimple(path) && |body| <= 0x2_0000
    ensures Device(path, body).Ok? && |Device(path, body).value| <= 10 + |body|
  {
    hide NameString, PkgLength;
    SimpleName(path);
    PkgLengthRoundTrip(4 + |body|, []);
  }

  lemma FlattenCons(a: seq<byte>, rest: seq<seq<byte>>)
    ensures Flatten([a] + rest) == a + Flatten(rest)
  {
    assert ([a] + rest)[1..] == rest;
  }

  lemma BufferLength(bytes: seq<byte>)
    requires |bytes| <= 0x1_0000
    ensures Buffer(bytes).Ok? && |Buffer(bytes).value| <= |bytes| + 14
  {
    hide PkgLength, Integer;
    PkgLengthRoundTrip(|Integer(|bytes|) + bytes|, []);
  }

  lemma PackageLength(elements: seq<seq<byte>>, each: nat)
    requires |elements| <= 255 && each <= 64 && forall i :: 0 <= i < |elements| ==> |elements[i]| <= each
    ensures Package(elements).Ok? && |Package(elements).value| <= 6 + |elements| * each
  {
    hide PkgLength;
    FlattenBound(elements, each);
    PkgLengthRoundTrip(1 + |Flatten(elements)|, []);
  }

  lemma {:induction false} RoutePackagesLength(routes: seq<PrtRoute>)
    requires forall i :: 0 <= i < |routes| ==> routes[i].device < 32 && routes[i].pin < 4
    ensures RoutePackages(routes).Ok?
    ensures forall i :: 0 <= i < |routes| ==> |RoutePackages(routes).value[i]| <= 42
  {
    hide Package, Integer;
    if routes != [] {
      var r := routes[0];
      PackageLength([Integer(r.device * 0x1_0000 + 0xffff), Integer(r.pin), Integer(0), Integer(r.gsiv)], 9);
      RoutePackagesLength(routes[1..]);
    }
  }

  lemma Res0Length(c: AcpiConfig)
    requires DWordMemory(Consumer, c.ecam.base, EcamLen(c)).Ok?
    ensures Res0(c).Ok? && |Res0(c).value| <= 80
  {
    hide NamedDevice, Buffer, Integer, DWordMemory;
    var window := DWordMemory(Consumer, c.ecam.base, EcamLen(c)).value;
    DWordMemoryInjective(Consumer, c.ecam.base, EcamLen(c), c.ecam.base, EcamLen(c));
    BufferLength(Template(window));
    var hid, crs := EisaId("PNP0C02").value, ResourceTemplate(window).value;
    FlattenCons(hid, [crs]);
    FlattenCons(crs, []);
    NamedDeviceLength("RES0", ["_HID", "_CRS"], [hid, crs], []);
  }

  lemma PciValuesLength(hid: seq<byte>, cid: seq<byte>, bus: seq<byte>, prt: seq<byte>, crs: seq<byte>)
    ensures |Flatten([hid, cid, Integer(0), bus, Integer(0), Integer(1), prt, crs])|
            == |hid| + |cid| + |bus| + |prt| + |crs| + 3
  {
    FlattenCons(hid, [cid, Integer(0), bus, Integer(0), Integer(1), prt, crs]);
    FlattenCons(cid, [Integer(0), bus, Integer(0), Integer(1), prt, crs]);
    FlattenCons(Integer(0), [bus, Integer(0), Integer(1), prt, crs]);
    FlattenCons(bus, [Integer(0), Integer(1), prt, crs]);
    FlattenCons(Integer(0), [Integer(1), prt, crs]);
    FlattenCons(Integer(1), [prt, crs]);
    FlattenCons(prt, [crs]);
    FlattenCons(crs, []);
  }

  lemma EisaIdLength(id: string)
    requires IsEisaId(id)
    ensures EisaId(id).Ok? && |EisaId(id).value| <= 9
  {
  }

  lemma PciCrsLength(c: AcpiConfig)
    requires Describable(c)
    ensures PciCrs(c).Ok? && |PciCrs(c).value| <= 58
  {
    hide Buffer;
    assert |PciDescriptors(c)| == 42;
    BufferLength(Template(PciDescriptors(c)));
  }

  lemma PciRootLength(c: AcpiConfig)
    requires Describable(c)
    ensures PciRoot(c).Ok? && |PciRoot(c).value| <= 6000
  {
    hide NamedDevice, Package, PciCrs, Res0, RouteAt, Integer, EisaId;
    EisaIdLength("PNP0A08");
    EisaIdLength("PNP0A03");
    Res0Length(c);
    RoutePackagesLength(PrtRoutes(c));
    PackageLength(RoutePackages(PrtRoutes(c)).value, 42);
    PciCrsLength(c);
    var prt, crs := Package(RoutePackages(PrtRoutes(c)).value).value, PciCrs(c).value;
    var hid, cid, bus := EisaId("PNP0A08").value, EisaId("PNP0A03").value, Integer(c.ecam.startBus);
    PciValuesLength(hid, cid, bus, prt, crs);
    FlattenCons(Res0(c).value, []);
    NamedDeviceLength("PCI0", PciPaths(), [hid, cid, Integer(0), bus, Integer(0), Integer(1), prt, crs],
      [Res0(c).value]);
  }

  lemma StringHidLength(path: string, hid: string, descriptors: seq<byte>)
    requires IsSimple(path) && IsText(hid) && |hid| <= 8 && |descriptors| <= 32
    ensures StringHidDevice(path, hid, descriptors).Ok? && |StringHidDevice(path, hid, descriptors).value| <= 100
  {
    hide NamedDevice, Buffer;
    BufferLength(Template(descriptors));
    var hidText, crs := Text(hid).value, ResourceTemplate(descriptors).value;
    FlattenCons(hidText, [Integer(0), crs]);
    FlattenCons(Integer(0), [crs]);
    FlattenCons(crs, []);
    NamedDeviceLength(path, ["_HID", "_UID", "_CRS"], [hidText, Integer(0), crs], []);
  }

  lemma DevicesLength(c: AcpiConfig)
    requires Describable(c)
    ensures DevicesAml(c).Ok? && |Flatten(DevicesAml(c).value)| <= 6200
  {
    hide PciRoot, StringHidDevice, Memory32Fixed, ExtendedInterrupt;
    PciRootLength(c);
    assert IsSimple("XHC0") && IsText("PNP0D10") && IsSimple("TPM2") && IsText("MSFT0101");
    if c.usb.Some? {
      XhciLength(c.usb.value);
      StringHidLength("XHC0", "PNP0D10", XhciDescriptors(c.usb.value));
    }
    if c.tpm.Some? {
      TpmLength(c.tpm.value);
      StringHidLength("TPM2", "MSFT0101", TpmWindow(c));
    }
    var usb: seq<seq<byte>> := if c.usb.None? then [] else [XhciDevice(c.usb.value).value];
    var tpm: seq<seq<byte>> := if c.tpm.None? then [] else [TpmDevice(c.tpm.value).value];
    assert DevicesAml(c) == Ok([PciRoot(c).value] + usb + tpm);
    FlattenConcat([PciRoot(c).value] + usb, tpm);
    FlattenConcat([PciRoot(c).value], usb);
    FlattenBound([PciRoot(c).value], 6000);
    FlattenBound(usb, 100);
    FlattenBound(tpm, 100);
  }

  lemma XhciLength(usb: UsbConfig)
    requires Memory32Fixed(usb.mmioBase, usb.mmioLen).Ok?
    ensures |XhciDescriptors(usb)| == 21
  {
  }

  lemma TpmLength(tpm: TpmConfig)
    requires Memory32Fixed(tpm.crbBase, tpm.crbLen).Ok?
    ensures |Memory32Fixed(tpm.crbBase, tpm.crbLen).value| == 12
  {
  }

  /** The DSDT builds exactly when every window fits its descriptor, and is always small. */
  lemma DsdtBuilds(c: AcpiConfig)
    ensures Dsdt(c).Ok? <==> Describable(c)
    ensures Dsdt(c).Ok? ==> Sdt.HEADER_LEN <= |Dsdt(c).value| <= 0x2000
  {
    hide DevicesAml, Describable, NameString, PkgLength;
    if Describable(c) {
      DevicesLength(c);
      RootedName("_SB");
      assert "\\" + "_SB" == "\\_SB";
      PkgLengthRoundTrip(5 + |Flatten(DevicesAml(c).value)|, []);
    } else if DevicesAml(c).Ok? {
      DevicesWriteTrees(c);
    }
  }

  /** On an accepted config only the ECAM window can fail to fit: it must end at or below 4 GiB. */
  lemma EcamLenIs(c: AcpiConfig)
    requires c.ecam.startBus <= c.ecam.endBus
    ensures EcamLen(c) == Buses(c.ecam) * 0x10_0000 <= 0x1000_0000
  {
  }

  lemma ValidDescribable(c: AcpiConfig)
    requires Valid(c)
    ensures Describable(c) <==> c.ecam.base + EcamLen(c) <= U32
    ensures EcamLen(c) == Buses(c.ecam) * 0x10_0000
  {
    hide EcamLen, Buses, LE, SpiGsiv, IsAffinity;
    EcamLenIs(c);
    BusesPositive(c.ecam);
  }

  lemma BusesPositive(ecam: EcamConfig)
    requires ecam.startBus <= ecam.endBus
    ensures 0 < Buses(ecam)
  {
  }
}
