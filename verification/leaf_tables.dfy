/** The GTDT: four timers. Section 5.2.25 of ACPI 6.5. */
module Gtdt {
  import opened Results
  import opened AcpiErrors
  import opened Bytes
  import opened Sdt
  import opened Config
  import opened Fields

  // "GTDT"
  const SIGNATURE: Signature := [0x47, 0x54, 0x44, 0x54]
  const TIMER_ALWAYS_ON: u32 := 4
  const NO_COUNTER_BLOCK: u64 := 0xffff_ffff_ffff_ffff

  predicate PpisFit(timer: TimerConfig): (r: bool)
    ensures r ==> |timer.ppis| == 4
  {
    |timer.ppis| == 4 && forall i :: 0 <= i < 4 ==> timer.ppis[i] <= 15
  }

  function TimerFlags(timer: TimerConfig): (r: u32) {
    if timer.alwaysOn then TIMER_ALWAYS_ON else 0
  }

  function Slot(timer: TimerConfig, i: nat): (r: seq<byte>)
    requires |timer.ppis| == 4 && i < 4
    ensures |r| == 8
  {
    LE(4, PpiGsiv(timer.ppis[i])) + LE(4, TimerFlags(timer))
  }

  /** Bytes 36 to 104, field by field. */
  function Body(timer: TimerConfig): (r: seq<byte>)
    requires |timer.ppis| == 4
    ensures |r| == 68
  {
    LE(8, NO_COUNTER_BLOCK) + Zeros(4)
    + Slot(timer, 0) + Slot(timer, 1) + Slot(timer, 2) + Slot(timer, 3)
    + LE(8, NO_COUNTER_BLOCK) + Zeros(16)
  }

  function Gtdt(timer: TimerConfig): (r: Result<seq<byte>, AcpiError>)
    requires |timer.ppis| == 4
    ensures r.Ok? <==> PpisFit(timer)
  {
    if !PpisFit(timer) then Err(BadConfig) else Table(NewHeader(SIGNATURE, 3), Body(timer))
  }

  /** The source's loop: the slots are patched into a zeroed body. */
  method BuildGtdt(timer: TimerConfig) returns (r: Result<seq<byte>, AcpiError>)
    requires |timer.ppis| == 4
    ensures r == Gtdt(timer)
  {
    hide LE;
    if !PpisFit(timer) {
      return Err(BadConfig);
    }
    var body := Put(Zeros(68), 0, LE(8, NO_COUNTER_BLOCK));
    var flags := TimerFlags(timer);
    for slot := 0 to 4
      invariant |body| == 68
      invariant body[..8] == LE(8, NO_COUNTER_BLOCK) && body[8..12] == Zeros(4)
      invariant forall i :: 0 <= i < slot ==> body[12 + 8 * i..20 + 8 * i] == Slot(timer, i)
      invariant body[12 + 8 * slot..] == Zeros(56 - 8 * slot)
    {
      var at := 12 + 8 * slot;
      ghost var before := body;
      body := Put(body, at, LE(4, PpiGsiv(timer.ppis[slot])));
      body := Put(body, at + 4, LE(4, flags));
      SlotPatched(timer, before, body, slot);
    }
    body := Put(body, 44, LE(8, NO_COUNTER_BLOCK));
    assert body[12..20] == Slot(timer, 0) && body[20..28] == Slot(timer, 1);
    assert body[28..36] == Slot(timer, 2) && body[36..44] == Slot(timer, 3);
    BodyParts(timer, body);
    r := Table(NewHeader(SIGNATURE, 3), body);
  }

  lemma SlotPatched(timer: TimerConfig, before: seq<byte>, body: seq<byte>, slot: nat)
    requires |timer.ppis| == 4 && slot < 4 && |before| == 68
    requires body
               == Put(Put(before, 12 + 8 * slot, LE(4, PpiGsiv(timer.ppis[slot]))), 16 + 8 * slot,
                 LE(4, TimerFlags(timer)))
    ensures body[12 + 8 * slot..20 + 8 * slot] == Slot(timer, slot)
    ensures body[..12 + 8 * slot] == before[..12 + 8 * slot] && body[20 + 8 * slot..] == before[20 + 8 * slot..]
    ensures body[..8] == before[..8] && body[8..12] == before[8..12]
    ensures forall i :: 0 <= i < slot ==> body[12 + 8 * i..20 + 8 * i] == before[12 + 8 * i..20 + 8 * i]
  {
    hide LE;
  }

  lemma BodyParts(timer: TimerConfig, body: seq<byte>)
    requires |timer.ppis| == 4 && |body| == 68
    requires body[..8] == LE(8, NO_COUNTER_BLOCK) && body[8..12] == Zeros(4)
    requires body[12..20] == Slot(timer, 0) && body[20..28] == Slot(timer, 1)
    requires body[28..36] == Slot(timer, 2) && body[36..44] == Slot(timer, 3)
    requires body[44..52] == LE(8, NO_COUNTER_BLOCK) && body[52..] == Zeros(16)
    ensures body == Body(timer)
  {
    hide LE, Slot;
    assert body == body[..8] + body[8..12] + body[12..20] + body[20..28] + body[28..36] + body[36..44] + body[44..52]
      + body[52..];
  }

  datatype GtdtInfo = GtdtInfo(gsivs: seq<u32>, flags: seq<u32>)

  function DecodedGtdt(bytes: seq<byte>): (r: Result<GtdtInfo, AcpiError>)
    ensures r.Ok? ==> |r.value.gsivs| == 4 && |r.value.flags| == 4
  {
    var t :- TableBody(bytes, SIGNATURE);
    if |t| < 80 then Err(Truncated)
    else
      FieldsFit(t);
      Ok(GtdtInfo(seq(4, i requires 0 <= i < 4 => U32At(t, 48 + 8 * i)),
        seq(4, i requires 0 <= i < 4 => U32At(t, 52 + 8 * i))))
  }

  lemma SlotReads(timer: TimerConfig, i: nat)
    requires PpisFit(timer) && i < 4
    ensures var b := Body(timer);
            b[12 + 8 * i..16 + 8 * i] == LE(4, PpiGsiv(timer.ppis[i]))
            && b[16 + 8 * i..20 + 8 * i] == LE(4, TimerFlags(timer))
  {
    hide LE, PpisFit;
    var b := Body(timer);
    assert b[12 + 8 * i..20 + 8 * i] == Slot(timer, i);
    assert b[12 + 8 * i..16 + 8 * i] == Slot(timer, i)[..4] && b[16 + 8 * i..20 + 8 * i] == Slot(timer, i)[4..];
  }

  lemma GtdtRoundTrip(timer: TimerConfig)
    requires PpisFit(timer)
    ensures var t := Gtdt(timer).value;
            && |t| == 104 && ByteSum(t) == 0 && t[..4] == SIGNATURE && U32At(t, 4) == |t|
            && DecodedGtdt(t).Ok?
            && forall i :: 0 <= i < 4 ==>
                 && DecodedGtdt(t).value.gsivs[i] == PpiGsiv(timer.ppis[i])
                 && DecodedGtdt(t).value.flags[i] == TimerFlags(timer)
  {
    hide Body, TableBody, LE, PpisFit;
    var t := Gtdt(timer).value;
    TableBodyOfTable(SIGNATURE, 3, Body(timer));
    TableFacts(NewHeader(SIGNATURE, 3), Body(timer));
    forall i | 0 <= i < 4
      ensures U32At(t, 48 + 8 * i) == PpiGsiv(timer.ppis[i]) && U32At(t, 52 + 8 * i) == TimerFlags(timer)
    {
      SlotReads(timer, i);
      BodySlice(t, Body(timer), 48 + 8 * i, 52 + 8 * i);
      BodySlice(t, Body(timer), 52 + 8 * i, 56 + 8 * i);
      U32AtLE(t, 48 + 8 * i, PpiGsiv(timer.ppis[i]));
      U32AtLE(t, 52 + 8 * i, TimerFlags(timer));
    }
  }
}

/** The MCFG: one ECAM window. Section 4.1.2 of the PCI Firmware Specification 3.3. */
module Mcfg {
  import opened Results
  import opened AcpiErrors
  import opened Bytes
  import opened Sdt
  import opened Config
  import opened Fields

  // "MCFG"
  const SIGNATURE: Signature := [0x4d, 0x43, 0x46, 0x47]
  const ENTRY_LEN: nat := 16
  const START: nat := 44
  const MAX_ENTRIES: nat := 4096

  /** The window's address of bus 0 does not fall below zero. */
  predicate HasBusZero(ecam: EcamConfig) {
    ecam.startBus <= ecam.endBus && ecam.startBus * 0x10_0000 <= ecam.base
  }

  function Body(ecam: EcamConfig): (r: seq<byte>)
    requires HasBusZero(ecam)
    ensures |r| == 24
  {
    Zeros(8) + LE(8, ecam.base - ecam.startBus * 0x10_0000) + LE(2, 0) + [ecam.startBus, ecam.endBus] + Zeros(4)
  }

  function Mcfg(ecam: EcamConfig): (r: Result<seq<byte>, AcpiError>)
    ensures r.Ok? <==> HasBusZero(ecam)
  {
    if !HasBusZero(ecam) then Err(BadConfig) else Table(NewHeader(SIGNATURE, 1), Body(ecam))
  }

  datatype McfgAllocation = McfgAllocation(base: u64, segment: nat, startBus: byte, endBus: byte)

  function AllocationAt(t: seq<byte>, at: nat): (r: McfgAllocation)
    requires at + ENTRY_LEN <= |t|
  {
    FieldsFit(t);
    McfgAllocation(U64At(t, at), U16At(t, at + 8), t[at + 10], t[at + 11])
  }

  function EntryCount(len: nat): (n: nat)
    ensures n == 0 || START + n * ENTRY_LEN <= len
  {
    var whole := if len < START then 0 else (len - START) / ENTRY_LEN;
    if whole < MAX_ENTRIES then whole else MAX_ENTRIES
  }

  function DecodedMcfg(bytes: seq<byte>): (r: Result<seq<McfgAllocation>, AcpiError>) {
    var t :- TableBody(bytes, SIGNATURE);
    Ok(seq(EntryCount(|t|), i requires 0 <= i < EntryCount(|t|) => AllocationAt(t, START + i * ENTRY_LEN)))
  }

  lemma BodyReads(ecam: EcamConfig)
    requires HasBusZero(ecam)
    ensures var b := Body(ecam);
            && b[8..16] == LE(8, ecam.base - ecam.startBus * 0x10_0000) && b[16..18] == LE(2, 0)
            && b[18..20] == [ecam.startBus, ecam.endBus]
  {
    hide LE;
  }

  lemma McfgRoundTrip(ecam: EcamConfig)
    requires HasBusZero(ecam)
    ensures var t := Mcfg(ecam).value;
            && |t| == 60 && ByteSum(t) == 0 && t[..4] == SIGNATURE && U32At(t, 4) == |t|
            && DecodedMcfg(t)
               == Ok([McfgAllocation(ecam.base - ecam.startBus * 0x10_0000, 0, ecam.startBus, ecam.endBus)])
  {
    hide Body, TableBody;
    var t, b := Mcfg(ecam).value, Body(ecam);
    TableBodyOfTable(SIGNATURE, 1, b);
    TableFacts(NewHeader(SIGNATURE, 1), b);
    BodyReads(ecam);
    BodySlice(t, b, 44, 52);
    U64AtLE(t, 44, ecam.base - ecam.startBus * 0x10_0000);
    BodySlice(t, b, 52, 54);
    U16AtLE(t, 52, 0);
    BodySlice(t, b, 54, 56);
    assert t[54] == t[54..56][0] && t[55] == t[54..56][1];
    assert EntryCount(60) == 1;
    assert DecodedMcfg(t).value == [AllocationAt(t, START)];
  }
}

/** The SPCR: the PL011 console. */
module Spcr {
  import opened Results
  import opened AcpiErrors
  import opened Bytes
  import opened Sdt
  import opened Config
  import opened Fields

  // "SPCR"
  const SIGNATURE: Signature := [0x53, 0x50, 0x43, 0x52]
  const INTERFACE_PL011: byte := 3
  const INTERRUPT_TYPE_GIC: byte := 8

  /** Bytes 36 to 80, field by field. */
  function Body(uart: UartConfig): (r: seq<byte>)
    ensures |r| == 44
  {
    [INTERFACE_PL011, 0, 0, 0] + EncodeGas(Mmio32(uart.base)) + [INTERRUPT_TYPE_GIC, 0] + LE(4, SpiGsiv(uart.spi))
    + [7, 0, 1, 0, 0, 0] + [0xff, 0xff, 0xff, 0xff] + Zeros(12)
  }

  function Spcr(uart: UartConfig): (r: Result<seq<byte>, AcpiError>)
    ensures r.Ok?
  {
    Table(NewHeader(SIGNATURE, 2), Body(uart))
  }

  /** The source's in-place patches of a zeroed body. */
  method BuildSpcr(uart: UartConfig) returns (r: Result<seq<byte>, AcpiError>)
    ensures r == Spcr(uart)
  {
    hide LE, EncodeGas;
    var body := Zeros(80 - HEADER_LEN);
    body := body[36 - HEADER_LEN := INTERFACE_PL011];
    body := Put(body, 40 - HEADER_LEN, EncodeGas(Mmio32(uart.base)));
    body := body[52 - HEADER_LEN := INTERRUPT_TYPE_GIC];
    body := Put(body, 54 - HEADER_LEN, LE(4, SpiGsiv(uart.spi)));
    body := body[58 - HEADER_LEN := 7][60 - HEADER_LEN := 1];
    body := Put(body, 64 - HEADER_LEN, [0xff, 0xff, 0xff, 0xff]);
    assert body == Body(uart);
    r := Table(NewHeader(SIGNATURE, 2), body);
  }

  datatype SpcrInfo = SpcrInfo(interfaceType: byte, base: Gas, interruptType: byte, gsiv: u32)

  function DecodedSpcr(bytes: seq<byte>): (r: Result<SpcrInfo, AcpiError>) {
    var t :- TableBody(bytes, SIGNATURE);
    if |t| < 58 then Err(Truncated)
    else
      FieldsFit(t);
      var base :- ParseGas(t[40..52]);
      Ok(SpcrInfo(t[36], base, t[52], U32At(t, 54)))
  }

  lemma SpcrRoundTrip(uart: UartConfig)
    ensures var t := Spcr(uart).value;
            && |t| == 80 && ByteSum(t) == 0 && t[..4] == SIGNATURE && U32At(t, 4) == |t|
            && DecodedSpcr(t) == Ok(SpcrInfo(INTERFACE_PL011, Mmio32(uart.base), INTERRUPT_TYPE_GIC, SpiGsiv(uart.spi)))
  {
    hide EncodeGas, ParseGas, Body, TableBody;
    var t, b := Spcr(uart).value, Body(uart);
    TableBodyOfTable(SIGNATURE, 2, b);
    TableFacts(NewHeader(SIGNATURE, 2), b);
    BodyReads(uart);
    BodySlice(t, b, 36, 37);
    assert t[36] == t[36..37][0];
    BodySlice(t, b, 40, 52);
    GasRoundTrip(Mmio32(uart.base), []);
    assert EncodeGas(Mmio32(uart.base)) + [] == t[40..52];
    BodySlice(t, b, 52, 53);
    assert t[52] == t[52..53][0];
    BodySlice(t, b, 54, 58);
    U32AtLE(t, 54, SpiGsiv(uart.spi));
  }

  lemma BodyReads(uart: UartConfig)
    ensures var b := Body(uart);
            && b[..1] == [INTERFACE_PL011] && b[4..16] == EncodeGas(Mmio32(uart.base))
            && b[16..17] == [INTERRUPT_TYPE_GIC] && b[18..22] == LE(4, SpiGsiv(uart.spi))
  {
    hide EncodeGas, LE;
  }
}

/** The DBG2: the PL011 debug port. */
module Dbg2 {
  import opened Results
  import opened AcpiErrors
  import opened Bytes
  import opened Sdt
  import opened Config
  import opened Fields

  // "DBG2"
  const SIGNATURE: Signature := [0x44, 0x42, 0x47, 0x32]
  const PORT_SERIAL: nat := 0x8000
  const SUBTYPE_PL011: nat := 3
  const MAX_ENTRIES: nat := 4096

  /** The one debug device information structure: 40 bytes. */
  function Info(uart: UartConfig): (r: seq<byte>)
    ensures |r| == 40
  {
    [0] + LE(2, 40) + [1] + LE(2, 2) + LE(2, 38) + Zeros(4) + LE(2, PORT_SERIAL) + LE(2, SUBTYPE_PL011) + Zeros(2)
    + LE(2, 22) + LE(2, 34) + EncodeGas(Mmio32(uart.base)) + LE(4, uart.len) + [0x2e, 0]
  }

  function Body(uart: UartConfig): (r: seq<byte>)
    ensures |r| == 48
  {
    LE(4, 44) + LE(4, 1) + Info(uart)
  }

  function Dbg2(uart: UartConfig): (r: Result<seq<byte>, AcpiError>)
    ensures r.Ok?
  {
    Table(NewHeader(SIGNATURE, 0), Body(uart))
  }

  datatype Dbg2Device = Dbg2Device(portType: nat, subtype: nat, base: Gas, size: u32)

  function DecodeDevice(d: seq<byte>): (r: Result<Dbg2Device, AcpiError>) {
    var baseAt :- U16Field(d, 18);
    var sizeAt :- U16Field(d, 20);
    var portType :- U16Field(d, 12);
    var subtype :- U16Field(d, 14);
    var raw :- Field(d, baseAt, GAS_LEN);
    var base :- ParseGas(raw);
    var size :- U32Field(d, sizeAt);
    Ok(Dbg2Device(portType, subtype, base, size))
  }

  /** Up to `count` devices from `at`, each found by the length of the one before. */
  function DecodeDevices(t: seq<byte>, at: nat, count: nat): (r: Result<seq<Dbg2Device>, AcpiError>)
    decreases count
  {
    if count == 0 then Ok([])
    else
      var len :- U16Field(t, at + 1);
      if len == 0 || at + len > |t| then Err(Truncated)
      else
        var device :- DecodeDevice(t[at..at + len]);
        var rest :- DecodeDevices(t, at + len, count - 1);
        Ok([device] + rest)
  }

  function DecodedDbg2(bytes: seq<byte>): (r: Result<seq<Dbg2Device>, AcpiError>) {
    var t :- TableBody(bytes, SIGNATURE);
    var at :- U32Field(t, 36);
    var count :- U32Field(t, 40);
    DecodeDevices(t, at, if count < MAX_ENTRIES then count else MAX_ENTRIES)
  }

  /** The source's loop over `at`. */
  method DecodeDbg2(bytes: seq<byte>) returns (r: Result<seq<Dbg2Device>, AcpiError>)
    ensures r == DecodedDbg2(bytes)
  {
    hide DecodeDevice, TableBody, U32Field, DecodeDevices;
    var t :- TableBody(bytes, SIGNATURE);
    var start :- U32Field(t, 36);
    var stated :- U32Field(t, 40);
    var count := if stated < MAX_ENTRIES then stated else MAX_ENTRIES;
    var at: nat := start;
    var devices: seq<Dbg2Device> := [];
    ghost var whole := DecodeDevices(t, at, count);
    assert whole.Ok? ==> [] + whole.value == whole.value;
    for done := 0 to count
      invariant Continues(whole, devices, DecodeDevices(t, at, count - done))
    {
      DecodeDevicesStep(t, at, count - done);
      var len :- U16Field(t, at + 1);
      if len == 0 || at + len > |t| {
        return Err(Truncated);
      }
      var device :- DecodeDevice(t[at..at + len]);
      ghost var rest := DecodeDevices(t, at + len, count - done - 1);
      assert rest.Ok? ==> devices + ([device] + rest.value) == devices + [device] + rest.value;
      devices := devices + [device];
      at := at + len;
    }
    DecodeDevicesDone(t, at);
    assert devices + [] == devices;
    return Ok(devices);
  }

  ghost predicate Continues(whole: Result<seq<Dbg2Device>, AcpiError>, devices: seq<Dbg2Device>,
      rest: Result<seq<Dbg2Device>, AcpiError>) {
    whole == if rest.Ok? then Ok(devices + rest.value) else rest
  }

  lemma DecodeDevicesDone(t: seq<byte>, at: nat)
    ensures DecodeDevices(t, at, 0) == Ok([])
  {
  }

  lemma DecodeDevicesStep(t: seq<byte>, at: nat, count: nat)
    requires count > 0
    ensures var r := DecodeDevices(t, at, count);
            var len := U16Field(t, at + 1);
            if len.Err? then r == Err(len.error)
            else if len.value == 0 || at + len.value > |t| then r == Err(Truncated)
            else
              var device := DecodeDevice(t[at..at + len.value]);
              var rest := DecodeDevices(t, at + len.value, count - 1);
              if device.Err? then r == Err(device.error)
              else if rest.Err? then r == rest
              else r == Ok([device.value] + rest.value)
  {
    hide DecodeDevice;
  }

  lemma InfoReads(uart: UartConfig)
    ensures DecodeDevice(Info(uart)) == Ok(Dbg2Device(PORT_SERIAL, SUBTYPE_PL011, Mmio32(uart.base), uart.len))
    ensures Info(uart)[1..3] == LE(2, 40)
  {
    hide LE, EncodeGas, ParseGas;
    var d := Info(uart);
    assert d[18..20] == LE(2, 22);
    U16AtLE(d, 18, 22);
    assert d[20..22] == LE(2, 34);
    U16AtLE(d, 20, 34);
    assert d[12..14] == LE(2, PORT_SERIAL);
    U16AtLE(d, 12, PORT_SERIAL);
    assert d[14..16] == LE(2, SUBTYPE_PL011);
    U16AtLE(d, 14, SUBTYPE_PL011);
    assert d[22..34] == EncodeGas(Mmio32(uart.base));
    GasRoundTrip(Mmio32(uart.base), []);
    assert EncodeGas(Mmio32(uart.base)) + [] == d[22..34];
    assert d[34..38] == LE(4, uart.len);
    U32AtLE(d, 34, uart.len);
  }

  lemma Dbg2RoundTrip(uart: UartConfig)
    ensures var t := Dbg2(uart).value;
            && |t| == 84 && ByteSum(t) == 0 && t[..4] == SIGNATURE && U32At(t, 4) == |t|
            && DecodedDbg2(t) == Ok([Dbg2Device(PORT_SERIAL, SUBTYPE_PL011, Mmio32(uart.base), uart.len)])
  {
    hide Info, DecodeDevice, LE, Body, TableBody, DecodeDevices;
    var t, b := Dbg2(uart).value, Body(uart);
    TableBodyOfTable(SIGNATURE, 0, b);
    TableFacts(NewHeader(SIGNATURE, 0), b);
    BodyReads(uart);
    BodySlice(t, b, 36, 40);
    U32AtLE(t, 36, 44);
    BodySlice(t, b, 40, 44);
    U32AtLE(t, 40, 1);
    BodySlice(t, b, 44, 84);
    InfoReads(uart);
    SubSlice(t, 44, 84, 1, 3);
    U16AtLE(t, 45, 40);
    DecodeDevicesStep(t, 44, 1);
    DecodeDevicesDone(t, 84);
    var device := Dbg2Device(PORT_SERIAL, SUBTYPE_PL011, Mmio32(uart.base), uart.len);
    assert U16Field(t, 45) == Ok(40);
    assert t[44..44 + 40] == Info(uart);
    assert [device] + [] == [device];
    assert DecodeDevices(t, 44, 1) == Ok([device]);
  }

  lemma BodyReads(uart: UartConfig)
    ensures var b := Body(uart);
            b[..4] == LE(4, 44) && b[4..8] == LE(4, 1) && b[8..48] == Info(uart)
  {
    hide LE, Info;
  }
}

/** The TPM2 table. */
module Tpm2 {
  import opened Results
  import opened AcpiErrors
  import opened Bytes
  import opened Sdt
  import opened Config
  import opened Fields

  // "TPM2"
  const SIGNATURE: Signature := [0x54, 0x50, 0x4d, 0x32]
  const PLATFORM_CLIENT: nat := 0
  const START_METHOD_CRB: u32 := 7

  function Body(tpm: TpmConfig): (r: seq<byte>)
    ensures |r| == 40
  {
    LE(2, PLATFORM_CLIENT) + LE(2, 0) + LE(8, tpm.controlArea) + LE(4, START_METHOD_CRB) + Zeros(12) + LE(4, 0)
      + LE(8, 0)
  }

  function Tpm2(tpm: TpmConfig): (r: Result<seq<byte>, AcpiError>)
    ensures r.Ok?
  {
    Table(NewHeader(SIGNATURE, 4), Body(tpm))
  }

  datatype Tpm2Info = Tpm2Info(platformClass: nat, controlArea: u64, startMethod: u32)

  function DecodedTpm2(bytes: seq<byte>): (r: Result<Tpm2Info, AcpiError>) {
    var h :- ParseHeader(bytes);
    if h.signature != SIGNATURE || h.length < 52 || h.length > |bytes| then Err(BadTable)
    else
      FieldsFit(bytes);
      Ok(Tpm2Info(U16At(bytes, 36), U64At(bytes, 40), U32At(bytes, 48)))
  }

  lemma Tpm2RoundTrip(tpm: TpmConfig)
    ensures var t := Tpm2(tpm).value;
            && |t| == 76 && ByteSum(t) == 0 && t[..4] == SIGNATURE && U32At(t, 4) == |t|
            && DecodedTpm2(t) == Ok(Tpm2Info(PLATFORM_CLIENT, tpm.controlArea, START_METHOD_CRB))
  {
    hide Body;
    var t, b := Tpm2(tpm).value, Body(tpm);
    TableFacts(NewHeader(SIGNATURE, 4), b);
    BodyReads(tpm);
    BodySlice(t, b, 36, 38);
    U16AtLE(t, 36, PLATFORM_CLIENT);
    BodySlice(t, b, 40, 48);
    U64AtLE(t, 40, tpm.controlArea);
    BodySlice(t, b, 48, 52);
    U32AtLE(t, 48, START_METHOD_CRB);
  }

  lemma BodyReads(tpm: TpmConfig)
    ensures var b := Body(tpm);
            b[..2] == LE(2, PLATFORM_CLIENT) && b[4..12] == LE(8, tpm.controlArea)
            && b[12..16] == LE(4, START_METHOD_CRB)
  {
    hide LE;
  }
}

/** The FADT: hardware-reduced, pointing at the DSDT. Section 5.2.9 of ACPI 6.5. */
module Fadt {
  import opened Results
  import opened AcpiErrors
  import opened Bytes
  import opened Sdt
  import opened Config
  import opened Fields

  // "FACP"
  const SIGNATURE: Signature := [0x46, 0x41, 0x43, 0x50]
  const FADT_LEN: nat := 276
  const FIRMWARE_CTRL_OFFSET: nat := 36
  const DSDT_OFFSET: nat := 40
  const FLAGS_OFFSET: nat := 112
  const ARM_BOOT_ARCH_OFFSET: nat := 129
  const MINOR_VERSION_OFFSET: nat := 131
  const X_FIRMWARE_CTRL_OFFSET: nat := 132
  const X_DSDT_OFFSET: nat := 140
  const HW_REDUCED_ACPI: u32 := 0x10_0000

  function BootArch(conduit: PsciConduit): (r: nat) {
    if conduit == Hvc then 3 else 1
  }

  /** Bytes 36 to 276, field by field. */
  function Body(dsdtGpa: u64, conduit: PsciConduit): (r: seq<byte>)
    ensures |r| == 240
  {
    Zeros(76) + LE(4, HW_REDUCED_ACPI) + Zeros(13) + LE(2, BootArch(conduit)) + [5] + Zeros(8) + LE(8, dsdtGpa)
      + Zeros(128)
  }

  function Fadt(dsdtGpa: u64, conduit: PsciConduit): (r: Result<seq<byte>, AcpiError>)
    ensures r.Ok? && |r.value| == FADT_LEN
  {
    Table(NewHeader(SIGNATURE, 6), Body(dsdtGpa, conduit))
  }

  /** The source's in-place patches of a zeroed body. */
  method BuildFadt(dsdtGpa: u64, conduit: PsciConduit) returns (r: Result<seq<byte>, AcpiError>)
    ensures r == Fadt(dsdtGpa, conduit)
  {
    hide LE;
    var body := Zeros(FADT_LEN - HEADER_LEN);
    body := Put(body, FLAGS_OFFSET - HEADER_LEN, LE(4, HW_REDUCED_ACPI));
    body := Put(body, ARM_BOOT_ARCH_OFFSET - HEADER_LEN, LE(2, BootArch(conduit)));
    body := Put(body, MINOR_VERSION_OFFSET - HEADER_LEN, [5]);
    body := Put(body, X_DSDT_OFFSET - HEADER_LEN, LE(8, dsdtGpa));
    assert body == Body(dsdtGpa, conduit);
    r := Table(NewHeader(SIGNATURE, 6), body);
  }

  /** Its only non-zero table pointer is `X_DSDT`. */
  lemma FadtFacts(dsdtGpa: u64, conduit: PsciConduit)
    ensures var t := Fadt(dsdtGpa, conduit).value;
            && ByteSum(t) == 0 && t[..4] == SIGNATURE && U32At(t, 4) == |t| && t[HEADER_LEN..] == Body(dsdtGpa, conduit)
            && U32At(t, FIRMWARE_CTRL_OFFSET) == 0 && U32At(t, DSDT_OFFSET) == 0
            && U64At(t, X_FIRMWARE_CTRL_OFFSET) == 0
            && U64At(t, X_DSDT_OFFSET) == dsdtGpa
  {
    hide LE;
    var t, b := Fadt(dsdtGpa, conduit).value, Body(dsdtGpa, conduit);
    TableFacts(NewHeader(SIGNATURE, 6), b);
    LEZero(4);
    LEZero(8);
    BodySlice(t, b, 36, 40);
    assert b[..4] == Zeros(4);
    U32AtLE(t, 36, 0);
    BodySlice(t, b, 40, 44);
    assert b[4..8] == Zeros(4);
    U32AtLE(t, 40, 0);
    BodySlice(t, b, 132, 140);
    assert b[96..104] == Zeros(8);
    U64AtLE(t, 132, 0);
    BodySlice(t, b, 140, 148);
    assert b[104..112] == LE(8, dsdtGpa);
    U64AtLE(t, 140, dsdtGpa);
  }
}

/** The XSDT: addresses of the other tables. Section 5.2.8 of ACPI 6.5. */
module Xsdt {
  import opened Results
  import opened AcpiErrors
  import opened Bytes
  import opened Sdt
  import opened Fields

  // "XSDT"
  const SIGNATURE: Signature := [0x58, 0x53, 0x44, 0x54]

  function Entries(gpas: seq<u64>): (r: seq<byte>)
    ensures |r| == 8 * |gpas|
  {
    if gpas == [] then [] else LE(8, gpas[0]) + Entries(gpas[1..])
  }

  function Xsdt(gpas: seq<u64>): (r: Result<seq<byte>, AcpiError>)
    ensures r.Ok? <==> HEADER_LEN + 8 * |gpas| < U32
    ensures r.Ok? ==> |r.value| == HEADER_LEN + 8 * |gpas|
  {
    Table(NewHeader(SIGNATURE, 1), Entries(gpas))
  }

  lemma {:induction false} EntriesAt(gpas: seq<u64>, i: nat)
    requires i < |gpas|
    ensures Entries(gpas)[8 * i..8 * i + 8] == LE(8, gpas[i])
  {
    hide LE;
    if i > 0 {
      EntriesAt(gpas[1..], i - 1);
      var e, rest := Entries(gpas), Entries(gpas[1..]);
      assert e[8 * i..8 * i + 8] == rest[8 * (i - 1)..8 * (i - 1) + 8];
    }
  }

  lemma XsdtFacts(gpas: seq<u64>)
    requires HEADER_LEN + 8 * |gpas| < U32
    ensures var t := Xsdt(gpas).value;
            && ByteSum(t) == 0 && t[..4] == SIGNATURE && U32At(t, 4) == |t| && t[HEADER_LEN..] == Entries(gpas)
            && forall i :: 0 <= i < |gpas| ==> U64At(t, HEADER_LEN + 8 * i) == gpas[i]
  {
    hide LE, Entries;
    var t := Xsdt(gpas).value;
    TableFacts(NewHeader(SIGNATURE, 1), Entries(gpas));
    forall i | 0 <= i < |gpas| ensures U64At(t, HEADER_LEN + 8 * i) == gpas[i] {
      EntriesAt(gpas, i);
      BodySlice(t, Entries(gpas), HEADER_LEN + 8 * i, HEADER_LEN + 8 * i + 8);
      U64AtLE(t, HEADER_LEN + 8 * i, gpas[i]);
    }
  }
}
