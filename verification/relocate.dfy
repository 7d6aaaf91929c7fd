/** What relocation means, said without the script: pointers move, sums hold, nothing else changes. */
module Moving {
  import opened Bytes
  import opened Sdt
  import opened Blobs
  import opened PointerFields
  import opened LoaderCommands
  import opened Layout
  import opened Loader
  import opened Firmware
  import opened Relocation

  /** A pointer into the tables, moved by `base - start`. */
  ghost predicate FieldsMoved(o: seq<byte>, t: seq<byte>, fs: seq<Field>, start: nat, base: nat)
    requires Separate(fs, |o|) && |t| == |o|
  {
    forall k :: 0 <= k < |fs| ==> Value(t, fs[k]) == if Value(o, fs[k]) == 0 then 0 else Value(o, fs[k]) + base - start
  }

  /**
    `t` is `o` with every non-zero pointer moved by exactly `base - start`,
    summing to zero, and no other byte changed but the checksum.
   */
  ghost predicate TableMoved(o: seq<byte>, t: seq<byte>, fs: seq<Field>, start: nat, base: nat)
    requires Separate(fs, |o|)
  {
    && |t| == |o|
    && ByteSum(t) == 0
    && FieldsMoved(o, t, fs, start, base)
    && forall j :: 0 <= j < |o| && j != CHECKSUM_OFFSET && !Covered(fs, j) ==> t[j] == o[j]
  }

  /** The same for the RSDP and its two checksums. */
  ghost predicate RsdpMoved(o: seq<byte>, t: seq<byte>, start: nat, base: nat)
    requires |o| == RSDP_LEN
  {
    && |t| == RSDP_LEN
    && RsdpChecksumsOk(t)
    && FieldsMoved(o, t, RSDP_FIELDS, start, base)
    && forall j ::
         0 <= j < RSDP_LEN && j != RSDP_CHECKSUM_OFFSET && j != RSDP_EXT_CHECKSUM_OFFSET
         && !Covered(RSDP_FIELDS, j) ==>
           t[j] == o[j]
  }

  // ----- at most one buffer is the moved one -----

  /** Buffers that differ at most at `at` and both sum to zero are equal. */
  lemma SumsDecide(t: seq<byte>, u: seq<byte>, at: nat)
    requires |t| == |u| && at < |t| && (forall j :: 0 <= j < |t| && j != at ==> t[j] == u[j])
    requires ByteSum(t) == 0 && ByteSum(u) == 0
    ensures t == u
  {
    hide ByteSum;
    assert t == t[at := t[at]] && u == t[at := u[at]];
    SealUnique(t, at, t[at], u[at]);
  }

  lemma MovedOnce(o: seq<byte>, t: seq<byte>, u: seq<byte>, fs: seq<Field>, start: nat, base: nat)
    requires Separate(fs, |o|) && CHECKSUM_OFFSET < |o| && !Covered(fs, CHECKSUM_OFFSET)
    requires TableMoved(o, t, fs, start, base) && TableMoved(o, u, fs, start, base)
    ensures t == u
  {
    hide ByteSum, Value, Covered;
    var b := u[CHECKSUM_OFFSET];
    var t' := t[CHECKSUM_OFFSET := b];
    ByteElsewhere(t, fs, CHECKSUM_OFFSET, b);
    SameFieldsSameBytes(t', u, fs);
    SumsDecide(t, u, CHECKSUM_OFFSET);
  }

  lemma RsdpMovedOnce(o: seq<byte>, t: seq<byte>, u: seq<byte>, start: nat, base: nat)
    requires |o| == RSDP_LEN && RsdpMoved(o, t, start, base) && RsdpMoved(o, u, start, base)
    ensures t == u
  {
    hide ByteSum, Value, Covered;
    RsdpFieldsSeparate();
    var fs := RSDP_FIELDS;
    var b, c := u[RSDP_CHECKSUM_OFFSET], u[RSDP_EXT_CHECKSUM_OFFSET];
    ByteElsewhere(t, fs, RSDP_CHECKSUM_OFFSET, b);
    ByteElsewhere(t[RSDP_CHECKSUM_OFFSET := b], fs, RSDP_EXT_CHECKSUM_OFFSET, c);
    SameFieldsSameBytes(t[RSDP_CHECKSUM_OFFSET := b][RSDP_EXT_CHECKSUM_OFFSET := c], u, fs);
    SumsDecide(t[..RSDP_V1_LEN], u[..RSDP_V1_LEN], RSDP_CHECKSUM_OFFSET);
    assert t[RSDP_CHECKSUM_OFFSET] == t[..RSDP_V1_LEN][RSDP_CHECKSUM_OFFSET] == b;
    SumsDecide(t, u, RSDP_EXT_CHECKSUM_OFFSET);
  }

  // ----- the relocated files hold moved tables -----

  lemma MovedValIs(sdts: seq<PlacedTable>, s: seq<byte>, fs: seq<Field>, base: nat, k: nat)
    requires Spaced(sdts) && Separate(fs, |s|) && Resolved(sdts, s, fs) && k < |fs|
    ensures var v := Value(s, fs[k]);
            MovedVal(v, sdts[0].gpa, base) == if v == 0 then 0 else v + base - sdts[0].gpa
  {
    hide Value, Offs;
    MovedValBounds(sdts, s, fs, k);
  }

  /** Overwriting the fields of a relative copy leaves moved fields and untouched bytes. */
  lemma WrittenIsMoved(sdts: seq<PlacedTable>, s: seq<byte>, r: seq<byte>, fs: seq<Field>, base: nat)
    requires Spaced(sdts) && Separate(fs, |s|) && Resolved(sdts, s, fs) && |r| == |s|
    requires FitFirst(s, fs, sdts[0].gpa, base, |fs|)
    ensures var t := WriteFields(r, fs, MovedVals(s, fs, sdts[0].gpa, base), |fs|);
            && FieldsMoved(s, t, fs, sdts[0].gpa, base)
            && forall j :: 0 <= j < |s| && !Covered(fs, j) ==> t[j] == r[j]
  {
    hide Value, MovedVal, Pow256, Spaced, Resolved, Covered;
    var vals := MovedVals(s, fs, sdts[0].gpa, base);
    WriteFieldsReads(r, fs, vals, |fs|);
    forall k | 0 <= k < |fs|
      ensures vals[k] == if Value(s, fs[k]) == 0 then 0 else Value(s, fs[k]) + base - sdts[0].gpa
    {
      MovedValIs(sdts, s, fs, base, k);
    }
  }

  /** Sealing a byte outside every field. */
  lemma SealedFields(o: seq<byte>, t: seq<byte>, fs: seq<Field>, start: nat, base: nat, at: nat, b: byte)
    requires Separate(fs, |o|) && |t| == |o| && FieldsMoved(o, t, fs, start, base) && at < |o| && !Covered(fs, at)
    ensures FieldsMoved(o, t[at := b], fs, start, base)
  {
    hide Value, Covered;
    ByteElsewhere(t, fs, at, b);
  }

  lemma SealedPartMoved(sdts: seq<PlacedTable>, i: nat, base: nat)
    requires Spaced(sdts) && AllResolved(sdts) && i < |sdts| && TableFits(sdts, i, base)
    ensures Separate(PointersIn(sdts[i]), |sdts[i].bytes|)
    ensures TableMoved(sdts[i].bytes, SealedPart(sdts, i, base), PointersIn(sdts[i]), sdts[0].gpa, base)
  {
    hide Value, MovedVal, FieldsOf, Part, Covered, WriteFields, FitFirst, Resolved, AllResolved, FieldsMoved, ByteSum,
      Checksum, Spaced;
    SpacedWhole(sdts, i);
    FieldsAreSeparate(sdts[i].signature, |sdts[i].bytes|);
    PartValues(sdts, i);
    var o, fs, start := sdts[i].bytes, PointersIn(sdts[i]), sdts[0].gpa;
    WrittenIsMoved(sdts, o, Part(sdts, i), fs, base);
    var moved := MovedPart(sdts, i, base);
    assert moved[0..|o|] == moved;
    SealSumsToZero(moved, CHECKSUM_OFFSET);
    SealedFields(o, moved, fs, start, base, CHECKSUM_OFFSET, Checksum(moved));
  }

  lemma SealedRsdpMoved(sdts: seq<PlacedTable>, rsdp: seq<byte>, base: nat)
    requires Linkable(sdts, rsdp) && RsdpFits(sdts, rsdp, base)
    ensures RsdpMoved(rsdp, SealedRsdp(sdts, rsdp, base), sdts[0].gpa, base)
  {
    hide Value, MovedVal, RelativeRsdp, Covered, WriteFields, FitFirst, Resolved, AllResolved, FieldsMoved, ByteSum,
      Checksum, Spaced;
    RsdpFieldsSeparate();
    RelativeRsdpValues(sdts, rsdp);
    var fs, start := RSDP_FIELDS, sdts[0].gpa;
    WrittenIsMoved(sdts, rsdp, RelativeRsdp(sdts, rsdp), fs, base);
    var moved := MovedRsdp(sdts, rsdp, base);
    var head := moved[..RSDP_V1_LEN];
    assert moved[0..RSDP_V1_LEN] == head;
    var first := moved[RSDP_CHECKSUM_OFFSET := Checksum(head)];
    SealSumsToZero(head, RSDP_CHECKSUM_OFFSET);
    assert first[..RSDP_V1_LEN] == head[RSDP_CHECKSUM_OFFSET := Checksum(head)];
    SealedFields(rsdp, moved, fs, start, base, RSDP_CHECKSUM_OFFSET, Checksum(head));
    assert first[0..RSDP_LEN] == first;
    SealSumsToZero(first, RSDP_EXT_CHECKSUM_OFFSET);
    SealedFields(rsdp, first, fs, start, base, RSDP_EXT_CHECKSUM_OFFSET, Checksum(first));
    var t := first[RSDP_EXT_CHECKSUM_OFFSET := Checksum(first)];
    assert t[..RSDP_V1_LEN] == first[..RSDP_V1_LEN];
  }

  // ----- the bytes between tables -----

  lemma {:induction false} BetweenParts(parts: seq<seq<byte>>, offs: seq<nat>, j: nat)
    requires Placed(parts, offs) && j < |Blob(parts, offs)|
    requires forall i :: 0 <= i < |parts| ==> !(offs[i] <= j < offs[i] + |parts[i]|)
    ensures Blob(parts, offs)[j] == 0
  {
    var n := |parts| - 1;
    var p := Blob(parts[..n], offs[..n]);
    if j < |p| {
      BetweenParts(parts[..n], offs[..n], j);
    }
  }
}

/** The compiler's contract, over any accepted table set and any base. */
module RelocatedSets {
  import opened Results
  import opened Bytes
  import opened Sdt
  import opened Blobs
  import opened PointerFields
  import opened LoaderCommands
  import opened Layout
  import opened Loader
  import opened LoaderInput
  import opened Firmware
  import opened Relocation
  import opened Moving

  /** The lowest table address. */
  ghost function Lowest(ts: seq<PlacedTable>): (r: nat)
    requires Accepts(ts)
    ensures forall t :: t in Sdts(ts) ==> r <= t.gpa
    ensures exists t :: t in Sdts(ts) && t.gpa == r
  {
    hide SortByGpa, Sdts, Rsdps, Accepts;
    AcceptsIsLinkable(ts);
    var sdts := SortByGpa(Sdts(ts));
    SortByGpaSorts(Sdts(ts));
    assert sdts[0] in Sdts(ts);
    assert forall t :: t in Sdts(ts) ==> t in sdts;
    sdts[0].gpa
  }

  ghost predicate ValuesFit(s: seq<byte>, fs: seq<Field>, start: nat, base: nat)
    requires Separate(fs, |s|)
  {
    forall k :: 0 <= k < |fs| ==> Value(s, fs[k]) == 0 || Value(s, fs[k]) + base - start < Pow256(fs[k].size)
  }

  ghost predicate TableValuesFit(t: PlacedTable, start: nat, base: nat)
    requires HEADER_LEN <= |t.bytes|
  {
    FieldsAreSeparate(t.signature, |t.bytes|);
    ValuesFit(t.bytes, PointersIn(t), start, base)
  }

  /** Every pointer, moved to `base`, is representable in its field. */
  ghost predicate Relocatable(ts: seq<PlacedTable>, base: nat)
    requires Accepts(ts)
  {
    hide Accepts, Sdts, Rsdps, SortByGpa;
    AcceptedWhole(ts);
    && (forall t :: t in Sdts(ts) ==> TableValuesFit(t, Lowest(ts), base))
    && ValuesFit(Rsdps(ts)[0].bytes, RSDP_FIELDS, Lowest(ts), base)
  }

  lemma AcceptedWhole(ts: seq<PlacedTable>)
    requires Accepts(ts)
    ensures forall t :: t in Sdts(ts) ==> HEADER_LEN <= |t.bytes|
    ensures |Rsdps(ts)| == 1 && |Rsdps(ts)[0].bytes| == RSDP_LEN
  {
    hide Sdts, Rsdps, AllNamed, Disjoint, PointersIn;
  }

  /** Table `t`, moved, is where it should be in the tables file. */
  ghost predicate MovedIn(t: PlacedTable, blob: seq<byte>, start: nat, base: nat)
    requires HEADER_LEN <= |t.bytes| && start <= t.gpa
  {
    FieldsAreSeparate(t.signature, |t.bytes|);
    var at := t.gpa - start;
    && at + |t.bytes| <= |blob|
    && TableMoved(t.bytes, blob[at..at + |t.bytes|], PointersIn(t), start, base)
  }

  ghost predicate Inside(t: PlacedTable, start: nat, j: int) {
    t.gpa <= start + j < t.gpa + |t.bytes|
  }

  /**
    Both files at their bases, every table moved and in place, zeros between
    them, and nothing after the last.
   */
  ghost predicate RelocatedTo(ts: seq<PlacedTable>, m: Memory, rsdpBase: nat, base: nat)
    requires Accepts(ts)
  {
    hide Accepts, Sdts, Rsdps, SortByGpa, RsdpFile, TablesFile, IsUtf8;
    AcceptedWhole(ts);
    var start := Lowest(ts);
    && m.Keys == {RsdpFile(), TablesFile()}
    && m[RsdpFile()].0 == rsdpBase
    && m[TablesFile()].0 == base
    && RsdpMoved(Rsdps(ts)[0].bytes, m[RsdpFile()].1, start, base)
    && var blob := m[TablesFile()].1;
    && (forall t :: t in Sdts(ts) ==> MovedIn(t, blob, start, base))
    && (forall j :: 0 <= j < |blob| && (forall t :: t in Sdts(ts) ==> !Inside(t, start, j)) ==> blob[j] == 0)
    && (exists t :: t in Sdts(ts) && t.gpa + |t.bytes| == start + |blob|)
  }

  // ----- from sorted tables to the set -----

  lemma FitIsValuesFit(sdts: seq<PlacedTable>, s: seq<byte>, fs: seq<Field>, base: nat)
    requires Spaced(sdts) && Separate(fs, |s|) && Resolved(sdts, s, fs)
    ensures FitFirst(s, fs, sdts[0].gpa, base, |fs|) <==> ValuesFit(s, fs, sdts[0].gpa, base)
  {
    hide Value, MovedVal, Pow256, Spaced, Resolved;
    forall k | 0 <= k < |fs|
      ensures MovedVal(Value(s, fs[k]), sdts[0].gpa, base) < Pow256(fs[k].size)
              <==> Value(s, fs[k]) == 0 || Value(s, fs[k]) + base - sdts[0].gpa < Pow256(fs[k].size)
    {
      MovedValIs(sdts, s, fs, base, k);
    }
  }

  lemma TableFitIsValuesFit(sdts: seq<PlacedTable>, i: nat, base: nat)
    requires Spaced(sdts) && AllResolved(sdts) && i < |sdts|
    ensures HEADER_LEN <= |sdts[i].bytes|
    ensures TableFits(sdts, i, base) <==> TableValuesFit(sdts[i], sdts[0].gpa, base)
  {
    hide FieldsOf, FitFirst, ValuesFit, Resolved, AllResolved, Spaced, Separate, Part;
    SpacedWhole(sdts, i);
    PartValues(sdts, i);
    FitIsValuesFit(sdts, sdts[i].bytes, PointersIn(sdts[i]), base);
  }

  lemma RepresentableIsRelocatable(ts: seq<PlacedTable>, base: nat)
    requires Accepts(ts)
    ensures |Rsdps(ts)| == 1 && Linkable(SortByGpa(Sdts(ts)), Rsdps(ts)[0].bytes)
    ensures Representable(SortByGpa(Sdts(ts)), Rsdps(ts)[0].bytes, base) <==> Relocatable(ts, base)
  {
    hide SortByGpa, Sdts, Rsdps, Accepts, TableFits, TableValuesFit, Spaced, AllResolved, Resolved, FitFirst, ValuesFit;
    AcceptsIsLinkable(ts);
    AcceptedWhole(ts);
    var sdts, rsdp := SortByGpa(Sdts(ts)), Rsdps(ts)[0].bytes;
    RsdpFieldsSeparate();
    FitIsValuesFit(sdts, rsdp, RSDP_FIELDS, base);
    forall i | 0 <= i < |sdts|
      ensures HEADER_LEN <= |sdts[i].bytes|
              && (TableFits(sdts, i, base) <==> TableValuesFit(sdts[i], sdts[0].gpa, base))
    {
      TableFitIsValuesFit(sdts, i, base);
    }
    assert forall i :: 0 <= i < |sdts| ==> sdts[i] in Sdts(ts);
    forall t | t in Sdts(ts) ensures exists i :: 0 <= i < |sdts| && sdts[i] == t {
      assert t in sdts;
    }
  }

  lemma PartInPlace(sdts: seq<PlacedTable>, i: nat, base: nat)
    requires Spaced(sdts) && AllResolved(sdts) && i < |sdts| && TableFits(sdts, i, base)
    ensures HEADER_LEN <= |sdts[i].bytes| && sdts[0].gpa <= sdts[i].gpa
    ensures MovedIn(sdts[i], TablesAt(sdts, base, |sdts|, |sdts|), sdts[0].gpa, base)
  {
    hide FieldsOf, TableFits, AllResolved, TableMoved, SealedPart, Blob;
    SealedPartMoved(sdts, i, base);
    BlobAt(PartsAt(sdts, base, |sdts|, |sdts|), Offs(sdts), i);
  }

  lemma GapsAreZero(sdts: seq<PlacedTable>, base: nat, j: nat)
    requires Spaced(sdts) && j < |TablesAt(sdts, base, |sdts|, |sdts|)|
    requires forall i :: 0 <= i < |sdts| ==> !Inside(sdts[i], sdts[0].gpa, j)
    ensures TablesAt(sdts, base, |sdts|, |sdts|)[j] == 0
  {
    hide SealedPart, Blob, Spaced;
    var parts := PartsAt(sdts, base, |sdts|, |sdts|);
    forall i | 0 <= i < |parts| ensures !(Offs(sdts)[i] <= j < Offs(sdts)[i] + |parts[i]|) {
      assert !Inside(sdts[i], sdts[0].gpa, j);
    }
    BetweenParts(parts, Offs(sdts), j);
  }

  lemma EndsWithLast(sdts: seq<PlacedTable>, base: nat)
    requires Spaced(sdts)
    ensures var last := sdts[|sdts| - 1];
            last.gpa + |last.bytes| == sdts[0].gpa + |TablesAt(sdts, base, |sdts|, |sdts|)|
  {
    hide SealedPart, Blob, Spaced;
    var parts := PartsAt(sdts, base, |sdts|, |sdts|);
    assert |Blob(parts, Offs(sdts))| == End(parts, Offs(sdts));
  }

  lemma RelocatedKeys(sdts: seq<PlacedTable>, rsdp: seq<byte>, rsdpBase: u64, base: u64)
    requires Spaced(sdts) && |rsdp| == RSDP_LEN
    ensures var m := Relocated(sdts, rsdp, rsdpBase, base);
            && m.Keys == {RsdpFile(), TablesFile()}
            && m[RsdpFile()] == (rsdpBase, SealedRsdp(sdts, rsdp, base))
            && m[TablesFile()] == (base, TablesAt(sdts, base, |sdts|, |sdts|))
  {
    hide SealedRsdp, TablesAt, RsdpFile, TablesFile, IsUtf8;
    FilesDiffer();
  }

  lemma RelocatedIsRelocatedTo(ts: seq<PlacedTable>, rsdpBase: u64, base: u64)
    requires Accepts(ts) && Relocatable(ts, base)
    ensures |Rsdps(ts)| == 1 && Linkable(SortByGpa(Sdts(ts)), Rsdps(ts)[0].bytes)
    ensures RelocatedTo(ts, Relocated(SortByGpa(Sdts(ts)), Rsdps(ts)[0].bytes, rsdpBase, base), rsdpBase, base)
  {
    hide SortByGpa, Sdts, Rsdps, Accepts, TableFits, Spaced, AllResolved, Resolved, FitFirst, Relocatable, MovedIn,
      RsdpMoved, Inside, Relocated, TablesAt, SealedRsdp, RsdpFile, TablesFile, IsUtf8, RsdpFits, TableValuesFit,
      ValuesFit;
    RepresentableIsRelocatable(ts, base);
    AcceptedWhole(ts);
    var sdts, rsdp := SortByGpa(Sdts(ts)), Rsdps(ts)[0].bytes;
    assert Lowest(ts) == sdts[0].gpa;
    RelocatedKeys(sdts, rsdp, rsdpBase, base);
    SealedRsdpMoved(sdts, rsdp, base);
    var blob := TablesAt(sdts, base, |sdts|, |sdts|);
    forall t | t in Sdts(ts) ensures MovedIn(t, blob, sdts[0].gpa, base) {
      assert t in sdts;
      var i :| 0 <= i < |sdts| && sdts[i] == t;
      PartInPlace(sdts, i, base);
    }
    forall j | 0 <= j < |blob| && (forall t :: t in Sdts(ts) ==> !Inside(t, sdts[0].gpa, j)) ensures blob[j] == 0 {
      forall i | 0 <= i < |sdts| ensures !Inside(sdts[i], sdts[0].gpa, j) {
        assert sdts[i] in Sdts(ts);
      }
      GapsAreZero(sdts, base, j);
    }
    EndsWithLast(sdts, base);
    assert sdts[|sdts| - 1] in Sdts(ts);
  }

  // ----- the contract -----

  /**
    For every accepted set and every base: the script runs to completion
    exactly when every moved pointer fits its field, and then the two files
    are the relocated ones.
   */
  lemma ScriptMeaning(ts: seq<PlacedTable>, rsdpBase: u64, base: u64)
    requires Accepts(ts)
    ensures var blobs := CompiledSet(ts);
            var run := Exec(blobs.commands, PlatformFor(blobs, rsdpBase, base), map[]);
            && (run.Some? <==> Relocatable(ts, base))
            && (run.Some? ==> RelocatedTo(ts, run.value, rsdpBase, base))
  {
    hide SortByGpa, Sdts, Rsdps, Accepts, Exec, Compiled, PlatformFor, Relocated, Representable, Relocatable,
      RelocatedTo, Linkable;
    RepresentableIsRelocatable(ts, base);
    var sdts, rsdp := SortByGpa(Sdts(ts)), Rsdps(ts)[0].bytes;
    ScriptRelocates(sdts, rsdp, rsdpBase, base);
    if Relocatable(ts, base) {
      RelocatedIsRelocatedTo(ts, rsdpBase, base);
    }
  }

  lemma SameTableBytes(t: PlacedTable, a: seq<byte>, b: seq<byte>, start: nat, base: nat, j: nat)
    requires HEADER_LEN <= |t.bytes| && start <= t.gpa && |a| == |b| && j < |a|
    requires MovedIn(t, a, start, base) && MovedIn(t, b, start, base) && Inside(t, start, j)
    ensures a[j] == b[j]
  {
    hide TableMoved, FieldsOf;
    FieldsAreSeparate(t.signature, |t.bytes|);
    var at := t.gpa - start;
    var x, y := a[at..at + |t.bytes|], b[at..at + |t.bytes|];
    MovedOnce(t.bytes, x, y, PointersIn(t), start, base);
    assert x[j - at] == a[j] && y[j - at] == b[j];
  }

  lemma SameLength(ts: seq<PlacedTable>, m: Memory, n: Memory, rsdpBase: nat, base: nat)
    requires Accepts(ts) && RelocatedTo(ts, m, rsdpBase, base) && RelocatedTo(ts, n, rsdpBase, base)
    ensures RsdpFile() in m && RsdpFile() in n && TablesFile() in m && TablesFile() in n
    ensures |m[TablesFile()].1| == |n[TablesFile()].1|
  {
    hide Sdts, Rsdps, Accepts, RsdpMoved, Inside, RsdpFile, TablesFile, IsUtf8, TableMoved, FieldsOf;
    AcceptedWhole(ts);
    var start, a, b := Lowest(ts), m[TablesFile()].1, n[TablesFile()].1;
    var t :| t in Sdts(ts) && t.gpa + |t.bytes| == start + |a|;
    var u :| u in Sdts(ts) && u.gpa + |u.bytes| == start + |b|;
    assert MovedIn(t, b, start, base) && MovedIn(u, a, start, base);
  }

  /** Those conditions leave no freedom: one memory satisfies them. */
  lemma RelocatedOnce(ts: seq<PlacedTable>, m: Memory, n: Memory, rsdpBase: nat, base: nat)
    requires Accepts(ts) && RelocatedTo(ts, m, rsdpBase, base) && RelocatedTo(ts, n, rsdpBase, base)
    ensures m == n
  {
    hide Sdts, Rsdps, Accepts, RsdpMoved, Inside, MovedIn, RsdpFile, TablesFile, IsUtf8;
    AcceptedWhole(ts);
    SameLength(ts, m, n, rsdpBase, base);
    var start, a, b := Lowest(ts), m[TablesFile()].1, n[TablesFile()].1;
    RsdpMovedOnce(Rsdps(ts)[0].bytes, m[RsdpFile()].1, n[RsdpFile()].1, start, base);
    forall j | 0 <= j < |a| ensures a[j] == b[j] {
      if t :| t in Sdts(ts) && Inside(t, start, j) {
        SameTableBytes(t, a, b, start, base, j);
      }
    }
    assert a == b;
    assert m[RsdpFile()] == n[RsdpFile()] && m[TablesFile()] == n[TablesFile()];
  }
}

/** The script survives its 128-byte-entry file format. */
module ScriptFile {
  import opened Results
  import opened Bytes
  import opened Sdt
  import opened PointerFields
  import opened LoaderCommands
  import opened Layout
  import opened Loader
  import opened LoaderInput

  ghost predicate AllEncode(cs: seq<LoaderCommand>) {
    forall c :: c in cs ==> Encodes(c)
  }

  lemma {:induction false} PointersEncode(file: FileName, s: seq<byte>, fs: seq<Field>, at: nat, n: nat)
    requires forall k :: 0 <= k < |fs| ==> fs[k].at + fs[k].size <= |s| && fs[k].size < 256
    requires n <= |fs| && at + |s| < U32 && NameFits(file)
    ensures AllEncode(Pointers(file, s, fs, at, n))
  {
    hide Value, NameFits, TablesFile, IsUtf8;
    FilesDiffer();
    if n > 0 {
      PointersEncode(file, s, fs, at, n - 1);
    }
  }

  lemma {:induction false} AllPointersEncode(sdts: seq<PlacedTable>, m: nat)
    requires Spaced(sdts) && m <= |sdts|
    ensures AllEncode(AllPointers(sdts, m))
  {
    hide Pointers, Spaced, TablesFile, IsUtf8, NameFits, Encodes, FieldsOf;
    FilesDiffer();
    if m > 0 {
      AllPointersEncode(sdts, m - 1);
      var t := sdts[m - 1];
      SpacedWhole(sdts, m - 1);
      FieldsAreSeparate(t.signature, |t.bytes|);
      PointersEncode(TablesFile(), t.bytes, PointersIn(t), Offs(sdts)[m - 1], |PointersIn(t)|);
    }
  }

  lemma {:induction false} AllSumsEncode(sdts: seq<PlacedTable>, m: nat)
    requires Spaced(sdts) && m <= |sdts|
    ensures AllEncode(AllSums(sdts, m))
  {
    hide Spaced, TablesFile, IsUtf8, NameFits, Offs;
    FilesDiffer();
    if m > 0 {
      AllSumsEncode(sdts, m - 1);
    }
  }

  lemma ScriptEncodes(sdts: seq<PlacedTable>, rsdp: seq<byte>)
    requires Spaced(sdts) && |rsdp| == RSDP_LEN
    ensures AllEncode(Script(sdts, rsdp))
  {
    hide Spaced, TablesFile, RsdpFile, IsUtf8, NameFits, AllPointers, AllSums, Pointers;
    FilesDiffer();
    AllPointersEncode(sdts, |sdts|);
    AllSumsEncode(sdts, |sdts|);
    PointersEncode(RsdpFile(), rsdp, RSDP_FIELDS, 0, 2);
  }

  /** Every accepted set's script encodes, and the file decodes back to it. */
  lemma ScriptFileReads(ts: seq<PlacedTable>)
    requires Accepts(ts)
    ensures EncodeAll(CompiledSet(ts).commands).Ok?
    ensures DecodeAll(EncodeAll(CompiledSet(ts).commands).value) == Ok(CompiledSet(ts).commands)
  {
    hide Accepts, SortByGpa, Sdts, Rsdps, Spaced, AllResolved, Resolved, Script, Encodes, EncodeAll, DecodeAll;
    AcceptsIsLinkable(ts);
    ScriptEncodes(SortByGpa(Sdts(ts)), Rsdps(ts)[0].bytes);
    var cs := CompiledSet(ts).commands;
    assert forall i :: 0 <= i < |cs| ==> cs[i] in cs;
    ScriptRoundTrip(cs);
  }
}
