/** System Description Table headers and whole tables, the RSDP, and the Generic Address Structure. */
module Sdt {
  import opened Results
  import opened AcpiErrors
  import opened Bytes

  const HEADER_LEN: nat := 36
  const CHECKSUM_OFFSET: nat := 9

  // "TERNVL", "TERN" and "TNVL".
  const OEM_ID: seq<byte> := [0x54, 0x45, 0x52, 0x4e, 0x56, 0x4c]
  const OEM_TABLE_PREFIX: seq<byte> := [0x54, 0x45, 0x52, 0x4e]
  const CREATOR_ID: seq<byte> := [0x54, 0x4e, 0x56, 0x4c]

  type Signature = s: seq<byte> | |s| == 4 witness [0, 0, 0, 0]

  datatype SdtHeaderRaw = SdtHeader(
    signature: Signature,
    length: u32,
    revision: byte,
    checksum: byte,
    oemId: seq<byte>,
    oemTableId: seq<byte>,
    oemRevision: u32,
    creatorId: seq<byte>,
    creatorRevision: u32)

  type SdtHeader = h: SdtHeaderRaw | |h.oemId| == 6 && |h.oemTableId| == 8 && |h.creatorId| == 4
    witness NewHeader([0, 0, 0, 0], 0)

  function NewHeader(signature: Signature, revision: byte): (h: SdtHeaderRaw)
    ensures |h.oemId| == 6 && |h.oemTableId| == 8 && |h.creatorId| == 4
  {
    SdtHeader(signature, 0, revision, 0, OEM_ID, OEM_TABLE_PREFIX + signature, 1, CREATOR_ID, 1)
  }

  /** Table 5.4 of ACPI 6.5, field by field. */
  function EncodeHeader(h: SdtHeader): (r: seq<byte>)
    ensures |r| == HEADER_LEN
  {
    h.signature + LE(4, h.length) + [h.revision, h.checksum] + h.oemId + h.oemTableId
    + LE(4, h.oemRevision) + h.creatorId + LE(4, h.creatorRevision)
  }

  /** The same bytes, copied field by field into a zeroed buffer. */
  method FillHeader(h: SdtHeader) returns (out: seq<byte>)
    ensures out == EncodeHeader(h)
  {
    hide LE;
    out := Put(Zeros(HEADER_LEN), 0, h.signature);
    out := Put(out, 4, LE(4, h.length));
    out := out[8 := h.revision][CHECKSUM_OFFSET := h.checksum];
    out := Put(out, 10, h.oemId);
    out := Put(out, 16, h.oemTableId);
    out := Put(out, 24, LE(4, h.oemRevision));
    out := Put(out, 28, h.creatorId);
    out := Put(out, 32, LE(4, h.creatorRevision));
    assert out[..4] == h.signature && out[4..8] == LE(4, h.length) && out[8..10] == [h.revision, h.checksum];
    assert out[10..16] == h.oemId && out[16..24] == h.oemTableId && out[24..28] == LE(4, h.oemRevision);
    assert out[28..32] == h.creatorId && out[32..] == LE(4, h.creatorRevision);
    HeaderParts(out);
  }

  lemma HeaderParts(s: seq<byte>)
    requires |s| == HEADER_LEN
    ensures s == s[..4] + s[4..8] + s[8..10] + s[10..16] + s[16..24] + s[24..28] + s[28..32] + s[32..]
  {
  }

  function ParseHeader(s: seq<byte>): (r: Result<SdtHeader, AcpiError>)
    ensures r.Ok? <==> |s| >= HEADER_LEN
  {
    if |s| < HEADER_LEN then Err(Truncated)
    else
      FieldsFit(s);
      Ok(SdtHeader(s[..4], U32At(s, 4), s[8], s[9], s[10..16], s[16..24], U32At(s, 24), s[28..32], U32At(s, 32)))
  }

  lemma FieldsFit(s: seq<byte>)
    ensures forall at :: 0 <= at <= |s| - 4 ==> U32At(s, at) < U32
    ensures forall at :: 0 <= at <= |s| - 8 ==> U64At(s, at) < U64
    ensures forall at :: 0 <= at <= |s| - 2 ==> U16At(s, at) < 0x1_0000
  {
    Pow256Values();
    forall at | 0 <= at <= |s| - 4 ensures U32At(s, at) < U32 { LEOfFromLE(s[at..at + 4]); }
    forall at | 0 <= at <= |s| - 8 ensures U64At(s, at) < U64 { LEOfFromLE(s[at..at + 8]); }
    forall at | 0 <= at <= |s| - 2 ensures U16At(s, at) < 0x1_0000 { LEOfFromLE(s[at..at + 2]); }
  }

  lemma U32AtLE(s: seq<byte>, at: nat, v: u32)
    requires at + 4 <= |s| && s[at..at + 4] == LE(4, v)
    ensures U32At(s, at) == v
  {
    Pow256Values();
    FromLEOfLE(4, v);
  }

  lemma U64AtLE(s: seq<byte>, at: nat, v: u64)
    requires at + 8 <= |s| && s[at..at + 8] == LE(8, v)
    ensures U64At(s, at) == v
  {
    Pow256Values();
    FromLEOfLE(8, v);
  }

  lemma U16AtLE(s: seq<byte>, at: nat, v: nat)
    requires v < 0x1_0000 && at + 2 <= |s| && s[at..at + 2] == LE(2, v)
    ensures U16At(s, at) == v
  {
    Pow256Values();
    FromLEOfLE(2, v);
  }

  lemma HeaderSlices(h: SdtHeader, body: seq<byte>)
    ensures var s := EncodeHeader(h) + body;
            && s[..4] == h.signature && s[4..8] == LE(4, h.length) && s[8] == h.revision && s[9] == h.checksum
            && s[10..16] == h.oemId && s[16..24] == h.oemTableId && s[24..28] == LE(4, h.oemRevision)
            && s[28..32] == h.creatorId && s[32..36] == LE(4, h.creatorRevision) && s[36..] == body
  {
  }

  /** Parsing inverts encoding, whatever follows the header. */
  lemma HeaderRoundTrip(h: SdtHeader, body: seq<byte>)
    ensures ParseHeader(EncodeHeader(h) + body) == Ok(h)
  {
    var s := EncodeHeader(h) + body;
    HeaderSlices(h, body);
    U32AtLE(s, 4, h.length);
    U32AtLE(s, 24, h.oemRevision);
    U32AtLE(s, 32, h.creatorRevision);
  }

  /** A whole table: the header with its length and checksum filled, then `body`. */
  function Table(h: SdtHeader, body: seq<byte>): (r: Result<seq<byte>, AcpiError>)
    ensures r.Ok? <==> HEADER_LEN + |body| < U32
    ensures r.Ok? ==> |r.value| == HEADER_LEN + |body|
  {
    if HEADER_LEN + |body| >= U32 then Err(TableTooLarge)
    else
      var out := EncodeHeader(h.(length := HEADER_LEN + |body|, checksum := 0)) + body;
      Ok(out[CHECKSUM_OFFSET := Checksum(out)])
  }

  /** A built table carries its signature, its own length and its body, and sums to zero. */
  lemma TableFacts(h: SdtHeader, body: seq<byte>)
    requires HEADER_LEN + |body| < U32
    ensures var t := Table(h, body).value;
            && t[..4] == h.signature
            && t[HEADER_LEN..] == body
            && U32At(t, 4) == |t|
            && ByteSum(t) == 0
            && ParseHeader(t) == Ok(h.(length := |t|, checksum := t[CHECKSUM_OFFSET]))
  {
    var z := h.(length := HEADER_LEN + |body|, checksum := 0);
    var out := EncodeHeader(z) + body;
    var t := Table(h, body).value;
    HeaderSlices(z, body);
    SealSumsToZero(out, CHECKSUM_OFFSET);
    var sealed := z.(checksum := t[CHECKSUM_OFFSET]);
    HeaderSlices(sealed, body);
    assert t == EncodeHeader(sealed) + body;
    HeaderRoundTrip(sealed, body);
  }

  // ----- RSDP (section 5.2.5.3) -----

  const RSDP_LEN: nat := 36
  const RSDP_V1_LEN: nat := 20
  const RSDP_CHECKSUM_OFFSET: nat := 8
  const RSDP_EXT_CHECKSUM_OFFSET: nat := 32
  const RSDP_XSDT_OFFSET: nat := 24
  const RSDP_REVISION_OFFSET: nat := 15
  // "RSD PTR "
  const RSDP_SIGNATURE: seq<byte> := [0x52, 0x53, 0x44, 0x20, 0x50, 0x54, 0x52, 0x20]

  /** The RSDP before its two checksums. */
  function RsdpFields(xsdtGpa: u64): (r: seq<byte>)
    ensures |r| == RSDP_LEN
  {
    RSDP_SIGNATURE + [0] + OEM_ID + [2] + LE(4, 0) + LE(4, RSDP_LEN) + LE(8, xsdtGpa) + [0, 0, 0, 0]
  }

  function Rsdp(xsdtGpa: u64): (r: seq<byte>)
    ensures |r| == RSDP_LEN
  {
    var out := RsdpFields(xsdtGpa);
    var sealed := out[RSDP_CHECKSUM_OFFSET := Checksum(out[..RSDP_V1_LEN])];
    sealed[RSDP_EXT_CHECKSUM_OFFSET := Checksum(sealed)]
  }

  /** The RSDP filled in place: fields, then the first checksum, then the second over it. */
  method FillRsdp(xsdtGpa: u64) returns (out: seq<byte>)
    ensures out == Rsdp(xsdtGpa)
  {
    hide LE, Checksum;
    out := Put(Zeros(RSDP_LEN), 0, RSDP_SIGNATURE);
    out := Put(out, 9, OEM_ID);
    out := out[RSDP_REVISION_OFFSET := 2];
    out := Put(out, 20, LE(4, RSDP_LEN));
    out := Put(out, RSDP_XSDT_OFFSET, LE(8, xsdtGpa));
    LEZero(4);
    assert out == RsdpFields(xsdtGpa);
    out := out[RSDP_CHECKSUM_OFFSET := Checksum(out[..RSDP_V1_LEN])];
    out := out[RSDP_EXT_CHECKSUM_OFFSET := Checksum(out)];
  }

  predicate RsdpChecksumsOk(s: seq<byte>)
    requires |s| == RSDP_LEN
  {
    ByteSum(s[..RSDP_V1_LEN]) == 0 && ByteSum(s) == 0
  }

  lemma RsdpFacts(xsdtGpa: u64)
    ensures var s := Rsdp(xsdtGpa);
            && s[..8] == RSDP_SIGNATURE
            && RsdpChecksumsOk(s)
            && s[RSDP_REVISION_OFFSET] == 2
            && U32At(s, 16) == 0
            && U64At(s, RSDP_XSDT_OFFSET) == xsdtGpa
  {
    var s := Rsdp(xsdtGpa);
    var out := RsdpFields(xsdtGpa);
    var head := out[..RSDP_V1_LEN];
    var first := out[RSDP_CHECKSUM_OFFSET := Checksum(head)];
    SealSumsToZero(head, RSDP_CHECKSUM_OFFSET);
    assert first[..RSDP_V1_LEN] == head[RSDP_CHECKSUM_OFFSET := Checksum(head)];
    SealSumsToZero(first, RSDP_EXT_CHECKSUM_OFFSET);
    assert s[..RSDP_V1_LEN] == first[..RSDP_V1_LEN];
    assert s[16..20] == LE(4, 0);
    U32AtLE(s, 16, 0);
    assert s[24..32] == LE(8, xsdtGpa);
    U64AtLE(s, RSDP_XSDT_OFFSET, xsdtGpa);
  }

  // ----- Generic Address Structure (section 5.2.3.2) -----

  const GAS_LEN: nat := 12

  datatype Gas = Gas(space: byte, bitWidth: byte, bitOffset: byte, accessSize: byte, address: u64)

  function Mmio32(address: u64): (g: Gas) {
    Gas(0, 32, 0, 3, address)
  }

  function EncodeGas(g: Gas): (r: seq<byte>)
    ensures |r| == GAS_LEN
  {
    [g.space, g.bitWidth, g.bitOffset, g.accessSize] + LE(8, g.address)
  }

  function ParseGas(s: seq<byte>): (r: Result<Gas, AcpiError>) {
    if |s| < GAS_LEN then Err(Truncated)
    else
      FieldsFit(s);
      Ok(Gas(s[0], s[1], s[2], s[3], U64At(s, 4)))
  }

  lemma GasRoundTrip(g: Gas, rest: seq<byte>)
    ensures ParseGas(EncodeGas(g) + rest) == Ok(g)
  {
    var s := EncodeGas(g) + rest;
    assert s[4..12] == LE(8, g.address);
    U64AtLE(s, 4, g.address);
  }
}
