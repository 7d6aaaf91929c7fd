/** Reading tables back: pointers followed from the RSDP through a reader that may fail or lie. */
module Dump {
  import opened Results
  import opened AcpiErrors
  import opened Bytes
  import opened Sdt
  import opened Layout
  import Fadt
  import Xsdt
  import Dsdt

  const MAX_TABLE_LEN: nat := 0x10_0000
  const MAX_XSDT_ENTRIES: nat := 64

  /** `read(gpa, len)`: some bytes, or None where the read fails. */
  type Reader = (nat, nat) -> Option<seq<byte>>

  function ReadExact(read: Reader, gpa: nat, len: nat): (r: Result<seq<byte>, AcpiError>)
    ensures r.Ok? <==> read(gpa, len).Some? && |read(gpa, len).value| == len
    ensures r.Ok? ==> |r.value| == len && read(gpa, len) == Some(r.value)
  {
    match read(gpa, len)
    case None => Err(Read)
    case Some(bytes) => if |bytes| != len then Err(BadTable) else Ok(bytes)
  }

  function ReadSdt(read: Reader, gpa: u64): (r: Result<PlacedTable, AcpiError>)
    ensures r.Ok? ==>
              r.value.gpa == gpa && HEADER_LEN <= |r.value.bytes| <= MAX_TABLE_LEN
              && read(gpa, |r.value.bytes|) == Some(r.value.bytes)
  {
    var raw :- ReadExact(read, gpa, HEADER_LEN);
    var header := ParseHeader(raw).value;
    if !(HEADER_LEN <= header.length <= MAX_TABLE_LEN) then Err(BadTable)
    else
      var bytes :- ReadExact(read, gpa, header.length);
      Ok(PlacedTable(header.signature, gpa, bytes))
  }

  /** `X_DSDT` when there is room for it and it is not zero, else `DSDT`. */
  function FadtDsdt(fadt: seq<byte>): (r: Option<u64>)
    ensures r.Some? ==> r.value != 0
  {
    FieldsFit(fadt);
    if Fadt.X_DSDT_OFFSET + 8 <= |fadt| && U64At(fadt, Fadt.X_DSDT_OFFSET) != 0
      then Some(U64At(fadt, Fadt.X_DSDT_OFFSET))
    else if Fadt.DSDT_OFFSET + 4 <= |fadt| && U32At(fadt, Fadt.DSDT_OFFSET) != 0
      then Some(U32At(fadt, Fadt.DSDT_OFFSET))
    else None
  }

  /** Whole 8-byte entries after the header. */
  function XsdtEntries(xsdt: seq<byte>): (r: seq<u64>)
    requires HEADER_LEN <= |xsdt|
    ensures |r| == (|xsdt| - HEADER_LEN) / 8
    ensures forall k :: 0 <= k < |r| ==> HEADER_LEN + 8 * k + 8 <= |xsdt| && r[k] == U64At(xsdt, HEADER_LEN + 8 * k)
  {
    FieldsFit(xsdt);
    var n := (|xsdt| - HEADER_LEN) / 8;
    seq(n, k requires 0 <= k < n => U64At(xsdt, HEADER_LEN + 8 * k))
  }

  predicate Present(tables: seq<PlacedTable>, gpa: nat) {
    exists i :: 0 <= i < |tables| && tables[i].gpa == gpa
  }

  /** The DSDT an FADT names, unless it was already read. */
  function NewDsdt(table: PlacedTable, tables: seq<PlacedTable>): (r: Option<u64>) {
    if table.signature != Fadt.SIGNATURE || FadtDsdt(table.bytes).None? || Present(tables, FadtDsdt(table.bytes).value)
      then None
    else FadtDsdt(table.bytes)
  }

  /** The RSDP, when it is one that leads to an XSDT. */
  function ReadRsdp(read: Reader, gpa: u64): (r: Result<PlacedTable, AcpiError>)
    ensures r.Ok? ==>
              && r.value.signature == RSDP_SIGNATURE && r.value.gpa == gpa && |r.value.bytes| == RSDP_LEN
              && read(gpa, RSDP_LEN) == Some(r.value.bytes)
              && r.value.bytes[..8] == RSDP_SIGNATURE && RsdpChecksumsOk(r.value.bytes)
              && U64At(r.value.bytes, RSDP_XSDT_OFFSET) != 0
  {
    var rsdp :- ReadExact(read, gpa, RSDP_LEN);
    if rsdp[..8] != RSDP_SIGNATURE || !RsdpChecksumsOk(rsdp) || rsdp[RSDP_REVISION_OFFSET] < 2 then Err(BadTable)
    else if U64At(rsdp, RSDP_XSDT_OFFSET) == 0 then Err(BadTable)
    else Ok(PlacedTable(RSDP_SIGNATURE, gpa, rsdp))
  }

  function ReadXsdt(read: Reader, rsdp: seq<byte>): (r: Result<PlacedTable, AcpiError>)
    requires |rsdp| == RSDP_LEN
    ensures r.Ok? ==>
              r.value.signature == Xsdt.SIGNATURE && HEADER_LEN <= |r.value.bytes|
              && |XsdtEntries(r.value.bytes)| <= MAX_XSDT_ENTRIES
  {
    FieldsFit(rsdp);
    var xsdt :- ReadSdt(read, U64At(rsdp, RSDP_XSDT_OFFSET));
    if xsdt.signature != Xsdt.SIGNATURE then Err(BadTable)
    else if |XsdtEntries(xsdt.bytes)| > MAX_XSDT_ENTRIES then Err(BadTable)
    else Ok(xsdt)
  }

  /** `tables`, then what the remaining entries lead to. */
  function Followed(read: Reader, tables: seq<PlacedTable>, entries: seq<u64>): (r: Result<seq<PlacedTable>, AcpiError>)
    decreases |entries|
  {
    if entries == [] then Ok(tables)
    else if entries[0] == 0 then Followed(read, tables, entries[1..])
    else
      var table :- ReadSdt(read, entries[0]);
      var more := tables + [table];
      match NewDsdt(table, more)
      case None => Followed(read, more, entries[1..])
      case Some(gpa) =>
        var dsdt :- ReadSdt(read, gpa);
        Followed(read, more + [dsdt], entries[1..])
  }

  function Walked(read: Reader, rsdpGpa: u64): (r: Result<seq<PlacedTable>, AcpiError>) {
    var rsdp :- ReadRsdp(read, rsdpGpa);
    var xsdt :- ReadXsdt(read, rsdp.bytes);
    Followed(read, [rsdp, xsdt], XsdtEntries(xsdt.bytes))
  }

  method AlreadyRead(tables: seq<PlacedTable>, gpa: nat) returns (r: bool)
    ensures r <==> Present(tables, gpa)
  {
    for i := 0 to |tables|
      invariant forall k :: 0 <= k < i ==> tables[k].gpa != gpa
    {
      if tables[i].gpa == gpa {
        return true;
      }
    }
    return false;
  }

  /** `walk`. */
  method Walk(read: Reader, rsdpGpa: u64) returns (r: Result<seq<PlacedTable>, AcpiError>)
    ensures r == Walked(read, rsdpGpa)
  {
    hide ReadSdt, FadtDsdt, Present;
    var rsdp :- ReadRsdp(read, rsdpGpa);
    var xsdt :- ReadXsdt(read, rsdp.bytes);
    var entries := XsdtEntries(xsdt.bytes);
    var tables := [rsdp, xsdt];
    for i := 0 to |entries|
      invariant Walked(read, rsdpGpa) == Followed(read, tables, entries[i..])
    {
      var gpa := entries[i];
      assert entries[i..][1..] == entries[i + 1..];
      if gpa == 0 {
        continue;
      }
      var table :- ReadSdt(read, gpa);
      tables := tables + [table];
      if table.signature == Fadt.SIGNATURE && FadtDsdt(table.bytes).Some? {
        var known := AlreadyRead(tables, FadtDsdt(table.bytes).value);
        if !known {
          var dsdt :- ReadSdt(read, FadtDsdt(table.bytes).value);
          tables := tables + [dsdt];
        }
      }
    }
    return Ok(tables);
  }

  // ----- what any walk returns -----

  /** Bytes the reader gave for that address, of a bounded length. */
  ghost predicate FromReader(read: Reader, t: PlacedTable) {
    && HEADER_LEN <= |t.bytes| <= MAX_TABLE_LEN
    && read(t.gpa, |t.bytes|) == Some(t.bytes)
  }

  lemma {:induction false} FollowedIsBounded(read: Reader, tables: seq<PlacedTable>, entries: seq<u64>)
    requires Followed(read, tables, entries).Ok?
    requires forall i :: 0 <= i < |tables| ==> FromReader(read, tables[i])
    ensures var ts := Followed(read, tables, entries).value;
            && tables <= ts && |ts| <= |tables| + 2 * |entries|
            && forall i :: 0 <= i < |ts| ==> FromReader(read, ts[i])
    decreases |entries|
  {
    hide ReadSdt, NewDsdt;
    if entries != [] {
      if entries[0] == 0 {
        FollowedIsBounded(read, tables, entries[1..]);
      } else {
        var table := ReadSdt(read, entries[0]).value;
        var more := tables + [table];
        match NewDsdt(table, more)
        case None => FollowedIsBounded(read, more, entries[1..]);
        case Some(gpa) => FollowedIsBounded(read, more + [ReadSdt(read, gpa).value], entries[1..]);
      }
    }
  }

  /**
    Whatever the reader returns, a successful walk gives an RSDP that checks
    out and an XSDT, then at most two tables an entry, every one exactly as
    read and at most 1 MiB.
   */
  lemma WalkIsBounded(read: Reader, rsdpGpa: u64)
    requires Walked(read, rsdpGpa).Ok?
    ensures var ts := Walked(read, rsdpGpa).value;
            && 2 <= |ts| <= 2 + 2 * MAX_XSDT_ENTRIES
            && ts[0].gpa == rsdpGpa && ts[0].signature == RSDP_SIGNATURE && |ts[0].bytes| == RSDP_LEN
            && RsdpChecksumsOk(ts[0].bytes)
            && ts[1].gpa == U64At(ts[0].bytes, RSDP_XSDT_OFFSET) && ts[1].signature == Xsdt.SIGNATURE
            && forall i :: 0 <= i < |ts| ==> FromReader(read, ts[i])
  {
    hide ReadSdt;
    var rsdp := ReadRsdp(read, rsdpGpa).value;
    var xsdt := ReadXsdt(read, rsdp.bytes).value;
    FollowedIsBounded(read, [rsdp, xsdt], XsdtEntries(xsdt.bytes));
  }

  // ----- a walk over a built set -----

  /** Every prefix of every table can be read where the table is. */
  ghost predicate Contains(read: Reader, ts: seq<PlacedTable>) {
    forall i, n :: 0 <= i < |ts| && 0 <= n <= |ts[i].bytes| ==> read(ts[i].gpa, n) == Some(ts[i].bytes[..n])
  }

  lemma ReadsBack(read: Reader, ts: seq<PlacedTable>, i: nat, n: nat)
    requires Contains(read, ts) && i < |ts| && n <= |ts[i].bytes|
    ensures ReadExact(read, ts[i].gpa, n) == Ok(ts[i].bytes[..n])
  {
  }

  lemma ReadsSdt(read: Reader, ts: seq<PlacedTable>, i: nat)
    requires Contains(read, ts) && i < |ts| && IsSdt(ts[i].signature, ts[i].bytes)
    ensures ReadSdt(read, ts[i].gpa) == Ok(ts[i])
  {
    hide Contains, ByteSum, U32At;
    var b := ts[i].bytes;
    ReadsBack(read, ts, i, HEADER_LEN);
    ReadsBack(read, ts, i, |b|);
    assert b[..|b|] == b;
    var h := b[..HEADER_LEN];
    PrefixHeader(b);
  }

  lemma PrefixHeader(b: seq<byte>)
    requires HEADER_LEN <= |b|
    ensures b[..HEADER_LEN][..4] == b[..4] && U32At(b[..HEADER_LEN], 4) == U32At(b, 4)
  {
    hide FromLE;
    assert b[..HEADER_LEN][4..8] == b[4..8];
  }

  lemma XsdtListed(p: Parts, base: u64)
    requires Fits(p, base) && Sound(p)
    ensures HEADER_LEN <= |BytesOf(p, base, 1)| && XsdtEntries(BytesOf(p, base, 1)) == Listed(p, base)
  {
    hide BytesOf, Gpa, Total, Sound, Listed, U64At;
    PointersResolve(p, base);
    TablesAreSdts(p, base, 1);
  }

  lemma RsdpRead(read: Reader, p: Parts, base: u64)
    requires Fits(p, base) && Contains(read, TableSet(p, base))
    ensures ReadRsdp(read, base) == Ok(TableAt(p, base, 0))
    ensures U64At(BytesOf(p, base, 0), RSDP_XSDT_OFFSET) == Gpa(p, base, 1)
  {
    hide Contains, Total, Rsdp, U64At, ByteSum, Lens, Offset;
    var ts := TableSet(p, base);
    OffsetZero(p);
    ReadsBack(read, ts, 0, RSDP_LEN);
    assert ts[0].bytes[..RSDP_LEN] == ts[0].bytes;
    RsdpFacts(Gpa(p, base, 1));
    PositiveOffsets(p);
  }

  lemma XsdtRead(read: Reader, p: Parts, base: u64)
    requires Fits(p, base) && Sound(p) && Contains(read, TableSet(p, base)) && |BytesOf(p, base, 0)| == RSDP_LEN
    requires U64At(BytesOf(p, base, 0), RSDP_XSDT_OFFSET) == Gpa(p, base, 1)
    ensures ReadXsdt(read, BytesOf(p, base, 0)) == Ok(TableAt(p, base, 1))
  {
    hide Contains, BytesOf, Gpa, Total, Sound, U64At, IsSdt, ReadSdt;
    TablesAreSdts(p, base, 1);
    ReadsSdt(read, TableSet(p, base), 1);
    XsdtListed(p, base);
  }

  lemma FadtPoints(p: Parts, base: u64)
    requires Fits(p, base) && Sound(p)
    ensures FadtDsdt(BytesOf(p, base, 2)) == Some(Gpa(p, base, 3))
  {
    hide Gpa, Total, Sound, U64At, U32At, Fadt.Fadt, Fadt.Body, Lens;
    Fadt.FadtFacts(Gpa(p, base, 3), p.conduit);
    GpasDiffer(p, base, 0, 3);
  }

  lemma DsdtIsNew(p: Parts, base: u64)
    requires Fits(p, base) && Sound(p)
    ensures !Present(TableSet(p, base)[..3], Gpa(p, base, 3))
  {
    hide Gpa, Fits, Sound, BytesOf, SignatureOf;
    var ts := TableSet(p, base);
    forall i | 0 <= i < |ts[..3]| ensures ts[..3][i].gpa != Gpa(p, base, 3) {
      GpasDiffer(p, base, i, 3);
    }
  }

  lemma FadtNamesDsdt(p: Parts, base: u64)
    requires Fits(p, base) && Sound(p)
    ensures NewDsdt(TableAt(p, base, 2), TableSet(p, base)[..3]) == Some(Gpa(p, base, 3))
  {
    hide Gpa, Fits, Sound, BytesOf, Present, FadtDsdt;
    FadtPoints(p, base);
    DsdtIsNew(p, base);
  }

  /** No leaf is an FADT. */
  ghost predicate PlainLeaves(p: Parts) {
    forall i :: 0 <= i < |p.leaves| ==> p.signatures[i] != Fadt.SIGNATURE
  }

  lemma {:induction false} FollowsLeaves(read: Reader, p: Parts, base: u64, k: nat)
    requires Fits(p, base) && Sound(p) && PlainLeaves(p) && Contains(read, TableSet(p, base)) && k <= |p.leaves|
    ensures Followed(read, TableSet(p, base)[..4 + k], Listed(p, base)[1 + k..]) == Ok(TableSet(p, base))
    decreases |p.leaves| - k
  {
    hide Contains, BytesOf, Gpa, Total, Sound, IsSdt, ReadSdt, Fits;
    var ts, listed := TableSet(p, base), Listed(p, base);
    if k == |p.leaves| {
      assert ts[..4 + k] == ts;
    } else {
      FollowsLeaves(read, p, base, k + 1);
      TablesAreSdts(p, base, 4 + k);
      ReadsSdt(read, ts, 4 + k);
      LeafEntry(p, base, k);
      var entries := listed[1 + k..];
      assert entries[0] == Gpa(p, base, 4 + k) && entries[1..] == listed[2 + k..];
      assert ts[..4 + k] + [ts[4 + k]] == ts[..5 + k];
    }
  }

  lemma LeafEntry(p: Parts, base: u64, k: nat)
    requires Fits(p, base) && Sound(p) && PlainLeaves(p) && k < |p.leaves|
    ensures Listed(p, base)[1 + k] == Gpa(p, base, 4 + k) != 0
    ensures SignatureOf(p, 4 + k) != Fadt.SIGNATURE
  {
    hide Gpa, Total, Sound, Lens;
    GpasDiffer(p, base, 0, 4 + k);
  }

  lemma FollowsFadt(read: Reader, p: Parts, base: u64)
    requires Fits(p, base) && Sound(p) && PlainLeaves(p) && Contains(read, TableSet(p, base))
    ensures Followed(read, TableSet(p, base)[..2], Listed(p, base)) == Ok(TableSet(p, base))
  {
    hide Contains, BytesOf, Gpa, Total, Sound, IsSdt, ReadSdt, Fits, NewDsdt;
    var ts, listed := TableSet(p, base), Listed(p, base);
    FollowsLeaves(read, p, base, 0);
    TablesAreSdts(p, base, 2);
    ReadsSdt(read, ts, 2);
    TablesAreSdts(p, base, 3);
    ReadsSdt(read, ts, 3);
    FadtNamesDsdt(p, base);
    GpasDiffer(p, base, 0, 2);
    assert ts[..2] + [ts[2]] == ts[..3] && ts[..3] + [ts[3]] == ts[..4];
  }

  lemma WalkFindsAll(read: Reader, p: Parts, base: u64)
    requires Fits(p, base) && Sound(p) && PlainLeaves(p) && Contains(read, TableSet(p, base))
    ensures Walked(read, base) == Ok(TableSet(p, base))
  {
    hide Contains, BytesOf, Gpa, Total, Sound, ReadRsdp, ReadXsdt, Fits, Followed, U64At;
    var ts := TableSet(p, base);
    RsdpRead(read, p, base);
    XsdtRead(read, p, base);
    XsdtListed(p, base);
    FollowsFadt(read, p, base);
    assert ts[..2] == [ts[0], ts[1]];
  }
}

/** `AcpiTables::write` into a RAM image, and reading the image back. */
module GuestMemory {
  import opened Results
  import opened AcpiErrors
  import opened Bytes
  import opened Sdt
  import opened Config
  import opened Layout
  import opened Tables
  import opened Dump
  import Fadt

  /** A reader over an image of the memory from `base` on. */
  function ImageReader(image: seq<byte>, base: nat): (read: Reader)
    ensures forall gpa, len :: base <= gpa && gpa - base + len <= |image| ==>
              read(gpa, len) == Some(image[gpa - base..gpa - base + len])
  {
    (gpa: nat, len: nat) =>
      if gpa < base || gpa - base + len > |image| then None else Some(image[gpa - base..gpa - base + len])
  }

  predicate InImage(t: PlacedTable, base: nat, len: nat) {
    base <= t.gpa && t.gpa - base + |t.bytes| <= len
  }

  /** The image after the first `n` tables are written. */
  ghost function Written(image: seq<byte>, base: nat, ts: seq<PlacedTable>, n: nat): (r: seq<byte>)
    requires n <= |ts| && forall i :: 0 <= i < n ==> InImage(ts[i], base, |image|)
    ensures |r| == |image|
  {
    if n == 0 then image
    else
      assert InImage(ts[n - 1], base, |image|);
      Put(Written(image, base, ts, n - 1), ts[n - 1].gpa - base, ts[n - 1].bytes)
  }

  method CopyInto(image: array<byte>, at: nat, bytes: seq<byte>)
    requires at + |bytes| <= image.Length
    modifies image
    ensures image[..] == Put(old(image[..]), at, bytes)
  {
    for i := 0 to |bytes|
      invariant forall j :: 0 <= j < image.Length ==>
                  image[j] == if at <= j < at + i then bytes[j - at] else old(image[j])
    {
      image[at + i] := bytes[i];
    }
  }

  /** Write every table; stop at the first that is not in the image. */
  method Write(ts: seq<PlacedTable>, image: array<byte>, base: nat) returns (r: Result<(), AcpiError>)
    modifies image
    ensures r.Ok? <==> forall i :: 0 <= i < |ts| ==> InImage(ts[i], base, image.Length)
    ensures r.Err? ==> r == Err(AcpiError.Write)
    ensures r.Ok? ==> image[..] == Written(old(image[..]), base, ts, |ts|)
    ensures r.Err? ==> exists n :: 0 <= n < |ts| && (forall i :: 0 <= i < n ==> InImage(ts[i], base, image.Length))
                                   && !InImage(ts[n], base, image.Length)
                                   && image[..] == Written(old(image[..]), base, ts, n)
  {
    hide Written, Put;
    ghost var start := image[..];
    NothingWritten(start, base, ts);
    for n := 0 to |ts|
      invariant forall i :: 0 <= i < n ==> InImage(ts[i], base, image.Length)
      invariant image[..] == Written(start, base, ts, n)
    {
      if !InImage(ts[n], base, image.Length) {
        return Err(AcpiError.Write);
      }
      OneMoreWritten(start, base, ts, n);
      CopyInto(image, ts[n].gpa - base, ts[n].bytes);
    }
    return Ok(());
  }

  lemma NothingWritten(image: seq<byte>, base: nat, ts: seq<PlacedTable>)
    ensures Written(image, base, ts, 0) == image
  {
  }

  lemma OneMoreWritten(image: seq<byte>, base: nat, ts: seq<PlacedTable>, n: nat)
    requires n < |ts| && forall i :: 0 <= i <= n ==> InImage(ts[i], base, |image|)
    ensures InImage(ts[n], base, |image|)
    ensures Written(image, base, ts, n + 1) == Put(Written(image, base, ts, n), ts[n].gpa - base, ts[n].bytes)
  {
    hide Put;
    assert InImage(ts[n], base, |image|);
  }

  /** Disjoint tables are all there after the last one is written. */
  lemma {:induction false} WrittenReads(image: seq<byte>, base: nat, ts: seq<PlacedTable>, n: nat, i: nat)
    requires i < n <= |ts| && forall k :: 0 <= k < n ==> InImage(ts[k], base, |image|)
    requires forall k, l :: 0 <= k < l < |ts| ==> ts[k].gpa + |ts[k].bytes| <= ts[l].gpa
    ensures var at := ts[i].gpa - base; Written(image, base, ts, n)[at..at + |ts[i].bytes|] == ts[i].bytes
  {
    hide Put;
    var before := Written(image, base, ts, n - 1);
    var at := ts[n - 1].gpa - base;
    if i == n - 1 {
      PutRead(before, at, ts[i].bytes);
    } else {
      WrittenReads(image, base, ts, n - 1, i);
      PutElsewhere(before, at, ts[n - 1].bytes, ts[i].gpa - base, ts[i].gpa - base + |ts[i].bytes|);
    }
  }

  lemma WrittenContains(image: seq<byte>, base: nat, ts: seq<PlacedTable>)
    requires forall i :: 0 <= i < |ts| ==> InImage(ts[i], base, |image|)
    requires forall k, l :: 0 <= k < l < |ts| ==> ts[k].gpa + |ts[k].bytes| <= ts[l].gpa
    ensures Contains(ImageReader(Written(image, base, ts, |ts|), base), ts)
  {
    hide Written;
    var out := Written(image, base, ts, |ts|);
    var read := ImageReader(out, base);
    forall i, n | 0 <= i < |ts| && 0 <= n <= |ts[i].bytes| ensures read(ts[i].gpa, n) == Some(ts[i].bytes[..n]) {
      WrittenReads(image, base, ts, |ts|, i);
      assert InImage(ts[i], base, |image|);
      var at := ts[i].gpa - base;
      SubSlice(out, at, at + |ts[i].bytes|, 0, n);
      assert ts[i].bytes[0..n] == ts[i].bytes[..n];
    }
  }

  lemma PlainBuilt(c: AcpiConfig)
    requires Valid(c) && Encodable(c)
    ensures Sound(PartsOf(c)) && PlainLeaves(PartsOf(c))
  {
    hide Valid, Encodable, DsdtBytes, LeafBytes, LeafSignatures, Sound;
    PartsAreSound(c);
    PlainSignatures(c.tpm.Some?);
  }

  lemma PlainSignatures(tpm: bool)
    ensures forall i :: 0 <= i < |LeafSignatures(tpm)| ==> LeafSignatures(tpm)[i] != Fadt.SIGNATURE
  {
  }

  /** From any memory holding a built set, the walk returns that set, in order. */
  lemma WalkUndoesBuild(read: Reader, base: u64, size: u64, c: AcpiConfig)
    requires Built(base, size, c).Ok? && Contains(read, Built(base, size, c).value)
    ensures Walked(read, base) == Built(base, size, c)
  {
    hide Valid, Encodable, PartsOf, Total, Contains, Walked, Sound, PlainLeaves;
    PlainBuilt(c);
    WalkFindsAll(read, PartsOf(c), base);
  }

  /** Build, write into any image that has room for the region, walk: the same tables come back. */
  lemma WalkUndoesWrite(image: seq<byte>, start: nat, base: u64, size: u64, c: AcpiConfig)
    requires Built(base, size, c).Ok? && start <= base && base + size <= start + |image|
    ensures var ts := Built(base, size, c).value;
            && (forall i :: 0 <= i < |ts| ==> InImage(ts[i], start, |image|))
            && Walked(ImageReader(Written(image, start, ts, |ts|), start), base) == Ok(ts)
  {
    hide Built, Contains, Walked, Written, ImageReader;
    var ts := Built(base, size, c).value;
    LayoutHolds(base, size, c);
    WrittenContains(image, start, ts);
    WalkUndoesBuild(ImageReader(Written(image, start, ts, |ts|), start), base, size, c);
  }
}

/** `find_rsdp` and `walk_image`. */
module RsdpScan {
  import opened Results
  import opened AcpiErrors
  import opened Bytes
  import opened Sdt
  import opened Layout
  import opened Dump
  import opened GuestMemory

  predicate SignatureAt(image: seq<byte>, at: nat) {
    at + 8 <= |image| && image[at..at + 8] == RSDP_SIGNATURE
  }

  /** A whole RSDP starts at `at`: the signature and both checksums. */
  predicate RsdpAt(image: seq<byte>, at: nat) {
    SignatureAt(image, at) && at + RSDP_LEN <= |image| && RsdpChecksumsOk(image[at..at + RSDP_LEN])
  }

  /** The first signature at or after `from`. */
  method NextSignature(image: seq<byte>, from: nat) returns (r: Option<nat>)
    ensures r.None? ==> forall at :: from <= at ==> !SignatureAt(image, at)
    ensures r.Some? ==>
              from <= r.value && SignatureAt(image, r.value)
              && forall at :: from <= at < r.value ==> !SignatureAt(image, at)
  {
    var at := from;
    while at + 8 <= |image|
      invariant from <= at && forall k :: from <= k < at ==> !SignatureAt(image, k)
      decreases |image| - at
    {
      if image[at..at + 8] == RSDP_SIGNATURE {
        return Some(at);
      }
      at := at + 1;
    }
    return None;
  }

  ghost predicate Ascending(s: seq<nat>) {
    forall i, j :: 0 <= i < j < |s| ==> s[i] < s[j]
  }

  /** The address of offset `at` in an image at `base`; the addition wraps. */
  function AddressIn(base: u64, at: nat): (r: u64)
    ensures base + at < U64 ==> r == base + at
  {
    (base + at) % U64
  }

  /** The addresses of exactly the whole RSDPs, each once, in image order. */
  method FindRsdp(image: seq<byte>, base: u64) returns (found: seq<u64>, ghost offsets: seq<nat>)
    ensures Ascending(offsets) && forall at: nat :: at in offsets <==> RsdpAt(image, at)
    ensures |found| == |offsets| && forall i :: 0 <= i < |found| ==> found[i] == AddressIn(base, offsets[i])
  {
    hide AddressIn;
    found, offsets := [], [];
    var offset := 0;
    var hit := NextSignature(image, offset);
    while hit.Some?
      invariant Ascending(offsets) && forall i :: 0 <= i < |offsets| ==> offsets[i] < offset
      invariant forall at: nat :: at in offsets <==> at < offset && RsdpAt(image, at)
      invariant |found| == |offsets| && forall i :: 0 <= i < |found| ==> found[i] == AddressIn(base, offsets[i])
      invariant hit.Some? ==>
                  offset <= hit.value && SignatureAt(image, hit.value)
                  && forall at :: offset <= at < hit.value ==> !SignatureAt(image, at)
      invariant hit.None? ==> forall at :: offset <= at ==> !SignatureAt(image, at)
      invariant offset <= |image| + 1
      decreases |image| + 1 - offset
    {
      var at := hit.value;
      if at + RSDP_LEN <= |image| && RsdpChecksumsOk(image[at..at + RSDP_LEN]) {
        found := found + [AddressIn(base, at)];
        offsets := offsets + [at];
      }
      offset := at + 1;
      hit := NextSignature(image, offset);
    }
  }

  ghost predicate WalksCleanly(image: seq<byte>, base: u64, at: nat) {
    RsdpAt(image, at) && Walked(ImageReader(image, base), AddressIn(base, at)).Ok?
  }

  /** The tables of the first RSDP in the image that walks cleanly; `NoRsdp` when none does. */
  method WalkImage(image: seq<byte>, base: u64) returns (r: Result<seq<PlacedTable>, AcpiError>)
    ensures r.Err? ==> r == Err(NoRsdp) && forall at: nat :: !WalksCleanly(image, base, at)
    ensures r.Ok? ==> exists at: nat ::
              && WalksCleanly(image, base, at) && r == Walked(ImageReader(image, base), AddressIn(base, at))
              && forall other: nat :: other < at ==> !WalksCleanly(image, base, other)
  {
    hide Walked, RsdpAt, AddressIn;
    var found, offsets := FindRsdp(image, base);
    for i := 0 to |found|
      invariant forall k :: 0 <= k < i ==> !WalksCleanly(image, base, offsets[k])
    {
      var tables := Walk(ImageReader(image, base), found[i]);
      assert offsets[i] in offsets;
      if tables.Ok? {
        forall other: nat | other < offsets[i] ensures !WalksCleanly(image, base, other) {
          if RsdpAt(image, other) {
            assert other in offsets;
          }
        }
        assert WalksCleanly(image, base, offsets[i]);
        return tables;
      }
    }
    forall at: nat ensures !WalksCleanly(image, base, at) {
      if RsdpAt(image, at) {
        assert at in offsets;
      }
    }
    return Err(NoRsdp);
  }

  /** A candidate whose address wrapped is below the image and never walks. */
  lemma WrappedFails(image: seq<byte>, base: u64, at: nat)
    requires |image| <= U64 && RsdpAt(image, at) && base + at >= U64
    ensures !WalksCleanly(image, base, at)
  {
  }
}
