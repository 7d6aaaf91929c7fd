/**
  The linker/loader compiler: absolute-address tables become two relocatable
  files and a script that relocates them.
 */
module Loader {
  import opened Results
  import opened AcpiErrors
  import opened Bytes
  import opened Sdt
  import opened Blobs
  import opened PointerFields
  import opened LoaderCommands
  import opened Layout
  import Fadt
  import Xsdt

  const MAX_TABLES_BYTES: nat := 0x10_0000

  lemma {:induction false} AsciiIsUtf8(s: seq<byte>)
    requires forall i :: 0 <= i < |s| ==> s[i] < 0x80
    ensures IsUtf8(s)
  {
    if s != [] {
      AsciiIsUtf8(s[1..]);
    }
  }

  function AsciiName(s: string): (r: FileName)
    requires forall i :: 0 <= i < |s| ==> s[i] < 128 as char
    ensures r == AsciiBytes(s)
  {
    AsciiIsUtf8(AsciiBytes(s));
    AsciiBytes(s)
  }

  function TablesFile(): (r: FileName) {
    AsciiName("etc/acpi/tables")
  }

  function RsdpFile(): (r: FileName) {
    AsciiName("etc/acpi/rsdp")
  }

  lemma FilesDiffer()
    ensures RsdpFile() != TablesFile()
    ensures NameFits(RsdpFile()) && NameFits(TablesFile())
  {
    hide IsUtf8;
    assert |RsdpFile()| == 13 && |TablesFile()| == 15;
  }

  datatype LoaderBlobs = LoaderBlobs(rsdp: seq<byte>, tables: seq<byte>, commands: seq<LoaderCommand>)

  // ----- pointer fields -----

  function FittingFields(fs: seq<Field>, len: nat): (r: seq<Field>)
    ensures |r| <= |fs|
    ensures forall k :: 0 <= k < |r| ==> r[k] in fs && r[k].at + r[k].size <= len
  {
    if fs == [] then []
    else (if fs[0].at + fs[0].size <= len then [fs[0]] else []) + FittingFields(fs[1..], len)
  }

  function FadtFields(): (r: seq<Field>) {
    [Field(Fadt.FIRMWARE_CTRL_OFFSET, 4), Field(Fadt.DSDT_OFFSET, 4), Field(Fadt.X_FIRMWARE_CTRL_OFFSET, 8),
      Field(Fadt.X_DSDT_OFFSET, 8)]
  }

  /** The table pointers an SDT can hold. */
  function FieldsOf(signature: seq<byte>, len: nat): (r: seq<Field>) {
    if signature == Xsdt.SIGNATURE then
      var n := if len < HEADER_LEN then 0 else (len - HEADER_LEN) / 8;
      seq(n, k requires 0 <= k < n => Field(HEADER_LEN + 8 * k, 8))
    else if signature == Fadt.SIGNATURE then FittingFields(FadtFields(), len)
    else []
  }

  lemma {:induction false} FittingSeparate(fs: seq<Field>, len: nat)
    requires forall k :: 0 <= k < |fs| ==> fs[k].size == 4 || fs[k].size == 8
    requires forall k, l :: 0 <= k < l < |fs| ==> fs[k].at + fs[k].size <= fs[l].at
    ensures Separate(FittingFields(fs, len), len)
  {
    if fs != [] {
      FittingSeparate(fs[1..], len);
      var rest := FittingFields(fs[1..], len);
      forall l | 0 <= l < |rest| ensures fs[0].at + fs[0].size <= rest[l].at {
        assert rest[l] in fs[1..];
      }
    }
  }

  /** They are separate, and none of them holds the header. */
  lemma FieldsAreSeparate(signature: seq<byte>, len: nat)
    requires HEADER_LEN <= len
    ensures Separate(FieldsOf(signature, len), len)
    ensures forall k :: 0 <= k < |FieldsOf(signature, len)| ==> HEADER_LEN <= FieldsOf(signature, len)[k].at
    ensures !Covered(FieldsOf(signature, len), CHECKSUM_OFFSET)
  {
    var fs := FieldsOf(signature, len);
    if signature == Fadt.SIGNATURE {
      FittingSeparate(FadtFields(), len);
      forall k | 0 <= k < |fs| ensures HEADER_LEN <= fs[k].at {
        assert fs[k] in FadtFields();
      }
    }
  }

  function PointersIn(t: PlacedTable): (r: seq<Field>) {
    FieldsOf(t.signature, |t.bytes|)
  }

  const RSDP_FIELDS: seq<Field> := [Field(16, 4), Field(RSDP_XSDT_OFFSET, 8)]

  lemma RsdpFieldsSeparate()
    ensures Separate(RSDP_FIELDS, RSDP_LEN) && ShiftAll(RSDP_FIELDS, 0) == RSDP_FIELDS
    ensures forall k :: 0 <= k < 2 ==> Shifted(RSDP_FIELDS[k], 0) == RSDP_FIELDS[k]
    ensures !Covered(RSDP_FIELDS, RSDP_CHECKSUM_OFFSET) && !Covered(RSDP_FIELDS, RSDP_EXT_CHECKSUM_OFFSET)
  {
  }

  // ----- what can be linked -----

  ghost predicate IsTarget(sdts: seq<PlacedTable>, v: nat) {
    exists i :: 0 <= i < |sdts| && sdts[i].gpa == v
  }

  /** Every non-zero pointer field names the first byte of a table in the set. */
  ghost predicate Resolved(sdts: seq<PlacedTable>, s: seq<byte>, fs: seq<Field>)
    requires Separate(fs, |s|)
  {
    forall k :: 0 <= k < |fs| ==> Value(s, fs[k]) == 0 || IsTarget(sdts, Value(s, fs[k]))
  }

  /** In address order, whole, disjoint, and ending within 1 MiB of the first. */
  ghost predicate Spaced(sdts: seq<PlacedTable>): (r: bool)
    ensures r ==> sdts != []
  {
    && sdts != []
    && (forall i :: 0 <= i < |sdts| ==> HEADER_LEN <= |sdts[i].bytes|)
    && (forall i, j :: 0 <= i < j < |sdts| ==> sdts[i].gpa + |sdts[i].bytes| <= sdts[j].gpa)
    && (forall i :: 0 <= i < |sdts| ==> sdts[i].gpa + |sdts[i].bytes| <= sdts[0].gpa + MAX_TABLES_BYTES)
  }

  lemma SpacedWhole(sdts: seq<PlacedTable>, i: nat)
    requires Spaced(sdts) && i < |sdts|
    ensures HEADER_LEN <= |sdts[i].bytes|
  {
  }

  ghost predicate AllResolved(sdts: seq<PlacedTable>)
    requires forall i :: 0 <= i < |sdts| ==> HEADER_LEN <= |sdts[i].bytes|
  {
    forall i :: 0 <= i < |sdts| ==>
      (FieldsAreSeparate(sdts[i].signature, |sdts[i].bytes|); Resolved(sdts, sdts[i].bytes, PointersIn(sdts[i])))
  }

  ghost predicate Linkable(sdts: seq<PlacedTable>, rsdp: seq<byte>) {
    && Spaced(sdts)
    && AllResolved(sdts)
    && |rsdp| == RSDP_LEN
    && Resolved(sdts, rsdp, RSDP_FIELDS)
  }

  // ----- the compiled files -----

  /** Field values moved from `start` to `base`; zero stays zero. */
  ghost function MovedVals(s: seq<byte>, fs: seq<Field>, start: nat, base: nat): (r: seq<nat>)
    requires Separate(fs, |s|)
    ensures |r| == |fs|
    ensures forall k :: 0 <= k < |fs| ==> r[k] == MovedVal(Value(s, fs[k]), start, base)
  {
    seq(|fs|, k requires 0 <= k < |fs| => MovedVal(Value(s, fs[k]), start, base))
  }

  ghost function MovedVal(v: nat, start: nat, base: nat): (r: nat) {
    if v == 0 || v < start then 0 else v - start + base
  }

  /** `s` with its pointers relative to the tables file. */
  ghost function Relative(s: seq<byte>, fs: seq<Field>, start: nat): (r: seq<byte>)
    requires Separate(fs, |s|)
    ensures |r| == |s|
  {
    WriteFields(s, fs, MovedVals(s, fs, start, 0), |fs|)
  }

  ghost function Part(sdts: seq<PlacedTable>, i: nat): (r: seq<byte>)
    requires Spaced(sdts) && i < |sdts|
    ensures |r| == |sdts[i].bytes|
  {
    FieldsAreSeparate(sdts[i].signature, |sdts[i].bytes|);
    Relative(sdts[i].bytes, PointersIn(sdts[i]), sdts[0].gpa)[CHECKSUM_OFFSET := 0]
  }

  ghost function FileParts(sdts: seq<PlacedTable>): (r: seq<seq<byte>>)
    requires Spaced(sdts)
    ensures |r| == |sdts|
    ensures forall i :: 0 <= i < |sdts| ==> r[i] == Part(sdts, i)
  {
    seq(|sdts|, i requires 0 <= i < |sdts| => Part(sdts, i))
  }

  ghost function Offs(sdts: seq<PlacedTable>): (r: seq<nat>)
    requires Spaced(sdts)
    ensures |r| == |sdts|
    ensures forall i :: 0 <= i < |sdts| ==> r[i] == sdts[i].gpa - sdts[0].gpa
    ensures forall i :: 0 <= i < |sdts| ==> r[i] + |sdts[i].bytes| <= MAX_TABLES_BYTES
  {
    seq(|sdts|, i requires 0 <= i < |sdts| => sdts[i].gpa - sdts[0].gpa)
  }

  /** Buffers as long as the tables are placed at the tables' offsets. */
  lemma LikePlaced(sdts: seq<PlacedTable>, parts: seq<seq<byte>>)
    requires Spaced(sdts) && |parts| == |sdts| && forall i :: 0 <= i < |sdts| ==> |parts[i]| == |sdts[i].bytes|
    ensures Placed(parts, Offs(sdts))
    ensures 0 < |Blob(parts, Offs(sdts))| <= MAX_TABLES_BYTES
    ensures forall i :: 0 <= i < |sdts| ==> Offs(sdts)[i] < |Blob(parts, Offs(sdts))|
  {
    var offs := Offs(sdts);
    forall i, j | 0 <= i < j < |parts| ensures offs[i] + |parts[i]| <= offs[j] {
      assert sdts[i].gpa + |sdts[i].bytes| <= sdts[j].gpa;
    }
    forall i | 0 <= i < |sdts| ensures offs[i] < |Blob(parts, offs)| {
      BlobAt(parts, offs, i);
    }
  }

  ghost function RelativeRsdp(sdts: seq<PlacedTable>, rsdp: seq<byte>): (r: seq<byte>)
    requires Spaced(sdts) && |rsdp| == RSDP_LEN
    ensures |r| == RSDP_LEN
  {
    Relative(rsdp, RSDP_FIELDS, sdts[0].gpa)[RSDP_CHECKSUM_OFFSET := 0][RSDP_EXT_CHECKSUM_OFFSET := 0]
  }

  // ----- the script -----

  function Pointer(file: FileName, offset: nat, size: nat): (c: LoaderCommand)
    requires offset < U32 && size < 256
  {
    AddPointer(file, TablesFile(), offset, size)
  }

  /** One command per non-zero field among the first `n`. */
  function Pointers(file: FileName, s: seq<byte>, fs: seq<Field>, at: nat, n: nat): (r: seq<LoaderCommand>)
    requires forall k :: 0 <= k < |fs| ==> fs[k].at + fs[k].size <= |s| && fs[k].size < 256
    requires n <= |fs| && at + |s| < U32
  {
    if n == 0 then []
    else
      Pointers(file, s, fs, at, n - 1)
      + if Value(s, fs[n - 1]) == 0 then [] else [Pointer(file, at + fs[n - 1].at, fs[n - 1].size)]
  }

  ghost function TablePointers(sdts: seq<PlacedTable>, i: nat): (r: seq<LoaderCommand>)
    requires Spaced(sdts) && i < |sdts|
  {
    FieldsAreSeparate(sdts[i].signature, |sdts[i].bytes|);
    Pointers(TablesFile(), sdts[i].bytes, PointersIn(sdts[i]), Offs(sdts)[i], |PointersIn(sdts[i])|)
  }

  ghost function AllPointers(sdts: seq<PlacedTable>, m: nat): (r: seq<LoaderCommand>)
    requires Spaced(sdts) && m <= |sdts|
  {
    if m == 0 then [] else AllPointers(sdts, m - 1) + TablePointers(sdts, m - 1)
  }

  ghost function TableSum(sdts: seq<PlacedTable>, i: nat): (c: LoaderCommand)
    requires Spaced(sdts) && i < |sdts|
  {
    AddChecksum(TablesFile(), Offs(sdts)[i] + CHECKSUM_OFFSET, Offs(sdts)[i], |sdts[i].bytes|)
  }

  ghost function AllSums(sdts: seq<PlacedTable>, m: nat): (r: seq<LoaderCommand>)
    requires Spaced(sdts) && m <= |sdts|
  {
    if m == 0 then [] else AllSums(sdts, m - 1) + [TableSum(sdts, m - 1)]
  }

  function Allocates(): (r: seq<LoaderCommand>) {
    [Allocate(RsdpFile(), 16, FSeg), Allocate(TablesFile(), 64, High)]
  }

  function RsdpSums(): (r: seq<LoaderCommand>) {
    [AddChecksum(RsdpFile(), RSDP_CHECKSUM_OFFSET, 0, RSDP_V1_LEN),
      AddChecksum(RsdpFile(), RSDP_EXT_CHECKSUM_OFFSET, 0, RSDP_LEN)]
  }

  function RsdpPointers(rsdp: seq<byte>): (r: seq<LoaderCommand>)
    requires |rsdp| == RSDP_LEN
  {
    Pointers(RsdpFile(), rsdp, RSDP_FIELDS, 0, 2)
  }

  ghost function Script(sdts: seq<PlacedTable>, rsdp: seq<byte>): (r: seq<LoaderCommand>)
    requires Spaced(sdts) && |rsdp| == RSDP_LEN
  {
    Allocates() + AllPointers(sdts, |sdts|) + AllSums(sdts, |sdts|)
    + RsdpPointers(rsdp) + RsdpSums()
  }

  ghost function Compiled(sdts: seq<PlacedTable>, rsdp: seq<byte>): (r: LoaderBlobs)
    requires Spaced(sdts) && |rsdp| == RSDP_LEN
  {
    LikePlaced(sdts, FileParts(sdts));
    LoaderBlobs(RelativeRsdp(sdts, rsdp), Blob(FileParts(sdts), Offs(sdts)), Script(sdts, rsdp))
  }
}
