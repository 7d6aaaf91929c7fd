/** What the firmware does with the script: two passes over its commands. */
module Firmware {
  import opened Results
  import opened Bytes
  import opened Sdt
  import opened LoaderCommands

  /** Each allocated file: the address it was given and its bytes. */
  type Memory = map<FileName, (u64, seq<byte>)>

  /** The fw_cfg files and the address each allocation returns. */
  datatype Platform = Platform(files: map<FileName, seq<byte>>, bases: map<FileName, u64>)

  // ----- pass 1 -----

  /** One command, or None where the firmware gives up. Alignment is the allocator's business. */
  function Step(c: LoaderCommand, p: Platform, m: Memory): (r: Option<Memory>) {
    match c
    case Allocate(file, align, _) =>
      if align > 4096 || file !in p.files || file !in p.bases || file in m then None
      else Some(m[file := (p.bases[file], p.files[file])])
    case AddPointer(pointer, pointee, offset, size) =>
      if pointer !in m || pointee !in m then None
      else
        var (at, blob) := m[pointer];
        var (base, target) := m[pointee];
        var added := AddBase(blob, offset, size, base, |target|);
        if added.None? then None else Some(m[pointer := (at, added.value)])
    case AddChecksum(file, result, start, len) =>
      if file !in m then None
      else
        var (at, blob) := m[file];
        if |blob| <= result || |blob| < start + len then None
        else Some(m[file := (at, Sealed(blob, result, start, len))])
  }

  /** Add `base` to a field that points into `len` bytes; None when anything is out of range. */
  function AddBase(blob: seq<byte>, offset: nat, size: nat, base: nat, len: nat): (r: Option<seq<byte>>) {
    if size !in {1, 2, 4, 8} || |blob| < offset + size then None
    else
      var v := FromLE(blob[offset..offset + size]);
      if v >= len || v + base >= Pow256(size) then None else Some(Put(blob, offset, LE(size, v + base)))
  }

  /** `CalculateCheckSum8` of a range stored at `result`. */
  function Sealed(s: seq<byte>, result: nat, start: nat, len: nat): (r: seq<byte>)
    requires result < |s| && start + len <= |s|
    ensures |r| == |s|
  {
    s[result := Checksum(s[start..start + len])]
  }

  function Exec(cs: seq<LoaderCommand>, p: Platform, m: Memory): (r: Option<Memory>) {
    if cs == [] then Some(m)
    else
      var next := Step(cs[0], p, m);
      if next.None? then None else Exec(cs[1..], p, next.value)
  }

  lemma {:induction false} ExecAppend(a: seq<LoaderCommand>, b: seq<LoaderCommand>, p: Platform, m: Memory)
    ensures Exec(a + b, p, m) == var mid := Exec(a, p, m); if mid.None? then None else Exec(b, p, mid.value)
  {
    hide Step;
    if a == [] {
      assert a + b == b;
    } else {
      assert (a + b)[1..] == a[1..] + b;
      if Step(a[0], p, m).Some? {
        ExecAppend(a[1..], b, p, Step(a[0], p, m).value);
      }
    }
  }

  lemma ExecOne(c: LoaderCommand, p: Platform, m: Memory)
    ensures Exec([c], p, m) == Step(c, p, m)
  {
    hide Step;
    assert [c][1..] == [];
  }

  // ----- pass 2 -----

  /** The address a pointer command's field now holds. */
  function Target(c: LoaderCommand, m: Memory): (r: Option<nat>) {
    if !c.AddPointer? || c.pointer !in m then None
    else
      var blob := m[c.pointer].1;
      if |blob| < c.offset + c.size then None else Some(FromLE(blob[c.offset..c.offset + c.size]))
  }

  /** The table at `address` in the file it points into, when it has a header and sums to zero. */
  function SdtAt(address: nat, file: FileName, m: Memory): (r: Option<seq<byte>>)
    ensures r.Some? ==> |r.value| >= HEADER_LEN
  {
    if file !in m then None
    else
      var (base, blob) := m[file];
      if address < base || address - base > |blob| then None
      else
        var rest := blob[address - base..];
        if |rest| < HEADER_LEN then None
        else
          var len := U32At(rest, 4);
          if len < HEADER_LEN || len > |rest| || ByteSum(rest[..len]) != 0 then None else Some(rest[..len])
  }

  // "RSDT" and "XSDT"
  const ROOT_TABLES: seq<seq<byte>> := [[0x52, 0x53, 0x44, 0x54], [0x58, 0x53, 0x44, 0x54]]

  function Installs(address: nat, file: FileName, m: Memory): (r: seq<seq<byte>>) {
    var t := SdtAt(address, file, m);
    if t.None? || t.value[..4] in ROOT_TABLES then [] else [t.value]
  }

  /** The tables handed to the OS, in order, each address looked at once. */
  function Installed(cs: seq<LoaderCommand>, m: Memory, seen: set<nat>): (r: seq<seq<byte>>) {
    if cs == [] then []
    else
      var target := Target(cs[0], m);
      if target.None? || target.value in seen then Installed(cs[1..], m, seen)
      else Installs(target.value, cs[0].pointee, m) + Installed(cs[1..], m, seen + {target.value})
  }
}

/** Running the compiled script relocates the tables. */
module Relocation {
  import opened Results
  import opened Bytes
  import opened Sdt
  import opened Blobs
  import opened PointerFields
  import opened LoaderCommands
  import opened Layout
  import opened Loader
  import opened Firmware

  // ----- pointers -----

  ghost predicate FitFirst(s: seq<byte>, fs: seq<Field>, start: nat, base: nat, n: nat)
    requires Separate(fs, |s|) && n <= |fs|
  {
    forall k :: 0 <= k < n ==> MovedVal(Value(s, fs[k]), start, base) < Pow256(fs[k].size)
  }

  /** `whole` holds, at `at`, the pointers of `s` relative to `start`, all inside `len` bytes. */
  ghost predicate HoldsRelative(whole: seq<byte>, s: seq<byte>, fs: seq<Field>, at: nat, start: nat, len: nat)
    requires Separate(fs, |s|)
  {
    && at + |s| <= |whole|
    && at + |s| < U32
    && forall k :: 0 <= k < |fs| ==>
         && at + fs[k].at + fs[k].size <= |whole|
         && Value(whole, Shifted(fs[k], at)) == MovedVal(Value(s, fs[k]), start, 0) < len
         && (Value(s, fs[k]) == 0 || start <= Value(s, fs[k]))
  }

  lemma AddBaseToField(blob: seq<byte>, f: Field, base: nat, len: nat)
    requires (f.size == 4 || f.size == 8) && f.at + f.size <= |blob| && Value(blob, f) < len
    ensures AddBase(blob, f.at, f.size, base, len)
            == if Value(blob, f) + base < Pow256(f.size) then Some(PutValue(blob, f, Value(blob, f) + base)) else None
  {
    hide FromLE, LE, Put, Pow256;
  }

  lemma StepPointer(p: Platform, m: Memory, file: FileName, f: Field)
    requires file in m && TablesFile() in m && (f.size == 4 || f.size == 8) && f.at < U32
    requires f.at + f.size <= |m[file].1| && Value(m[file].1, f) < |m[TablesFile()].1|
    ensures var v := Value(m[file].1, f) + m[TablesFile()].0;
            Step(Pointer(file, f.at, f.size), p, m)
            == if v < Pow256(f.size) then Some(m[file := (m[file].0, PutValue(m[file].1, f, v))]) else None
  {
    hide AddBase, Value, PutValue, Pow256, IsUtf8, TablesFile;
    AddBaseToField(m[file].1, f, m[TablesFile()].0, |m[TablesFile()].1|);
  }

  /** The memory with one file's bytes replaced. */
  ghost function With(m: Memory, file: FileName, s: seq<byte>): (r: Memory)
    requires file in m
  {
    m[file := (m[file].0, s)]
  }

  /** Running the first `n` fields' commands writes their moved values, or stops at one that does not fit. */
  lemma {:induction false} RunPointers(p: Platform, m: Memory, file: FileName, s: seq<byte>, fs: seq<Field>, at: nat,
      start: nat, n: nat)
    requires file in m && TablesFile() in m && Separate(fs, |s|) && n <= |fs|
    requires HoldsRelative(m[file].1, s, fs, at, start, |m[TablesFile()].1|)
    ensures Separate(ShiftAll(fs, at), |m[file].1|)
    ensures var base := m[TablesFile()].0;
            Exec(Pointers(file, s, fs, at, n), p, m)
            == if FitFirst(s, fs, start, base, n)
               then Some(With(m, file, WriteFields(m[file].1, ShiftAll(fs, at), MovedVals(s, fs, start, base), n)))
               else None
  {
    hide Value, Step, Pow256, IsUtf8, TablesFile, Pointer, MovedVals, WriteFields, FitFirst, HoldsRelative;
    HoldsInside(m[file].1, s, fs, at, start, |m[TablesFile()].1|);
    ShiftSeparate(fs, |s|, at, |m[file].1|);
    if n == 0 {
      RunNone(m, file, s, fs, at, start);
    } else {
      RunPointers(p, m, file, s, fs, at, start, n - 1);
      var tail := LastPointer(file, s, fs, at, n);
      ExecAppend(Pointers(file, s, fs, at, n - 1), tail, p, m);
      FitFirstStep(s, fs, start, m[TablesFile()].0, n);
      if FitFirst(s, fs, start, m[TablesFile()].0, n - 1) {
        RunLast(p, m, file, s, fs, at, start, n);
      }
    }
  }

  function LastPointer(file: FileName, s: seq<byte>, fs: seq<Field>, at: nat, n: nat): (r: seq<LoaderCommand>)
    requires 0 < n <= |fs| && fs[n - 1].at + fs[n - 1].size <= |s| && fs[n - 1].size < 256 && at + |s| < U32
  {
    if Value(s, fs[n - 1]) == 0 then [] else [Pointer(file, at + fs[n - 1].at, fs[n - 1].size)]
  }

  lemma HoldsInside(whole: seq<byte>, s: seq<byte>, fs: seq<Field>, at: nat, start: nat, len: nat)
    requires Separate(fs, |s|) && HoldsRelative(whole, s, fs, at, start, len)
    ensures at + |s| <= |whole| && at + |s| < U32
  {
  }

  lemma RunNone(m: Memory, file: FileName, s: seq<byte>, fs: seq<Field>, at: nat, start: nat)
    requires file in m && TablesFile() in m && Separate(fs, |s|) && Separate(ShiftAll(fs, at), |m[file].1|)
    ensures FitFirst(s, fs, start, m[TablesFile()].0, 0)
    ensures With(m, file, WriteFields(m[file].1, ShiftAll(fs, at), MovedVals(s, fs, start, m[TablesFile()].0), 0)) == m
  {
    assert m[file := m[file]] == m;
  }

  lemma FitFirstStep(s: seq<byte>, fs: seq<Field>, start: nat, base: nat, n: nat)
    requires Separate(fs, |s|) && 0 < n <= |fs|
    ensures FitFirst(s, fs, start, base, n) <==>
              FitFirst(s, fs, start, base, n - 1)
              && MovedVal(Value(s, fs[n - 1]), start, base) < Pow256(fs[n - 1].size)
  {
    hide Value, Pow256, MovedVal;
  }

  /** The last of `n` fields, the others being written. */
  lemma RunLast(p: Platform, m: Memory, file: FileName, s: seq<byte>, fs: seq<Field>, at: nat, start: nat, n: nat)
    requires file in m && TablesFile() in m && Separate(fs, |s|) && 0 < n <= |fs|
    requires HoldsRelative(m[file].1, s, fs, at, start, |m[TablesFile()].1|)
    requires Separate(ShiftAll(fs, at), |m[file].1|) && FitFirst(s, fs, start, m[TablesFile()].0, n - 1)
    ensures var base := m[TablesFile()].0;
            var gs, vals := ShiftAll(fs, at), MovedVals(s, fs, start, base);
            Exec(LastPointer(file, s, fs, at, n), p, With(m, file, WriteFields(m[file].1, gs, vals, n - 1)))
            == if MovedVal(Value(s, fs[n - 1]), start, base) < Pow256(fs[n - 1].size)
               then Some(With(m, file, WriteFields(m[file].1, gs, vals, n))) else None
  {
    hide Value, PutValue, Exec, Pow256, IsUtf8, TablesFile, Pointer, MovedVal, Separate, ShiftAll, MovedVals;
    FieldInside(fs, |s|, n - 1);
    var whole, base := m[file].1, m[TablesFile()].0;
    var gs, vals := ShiftAll(fs, at), MovedVals(s, fs, start, base);
    var written := WriteFields(whole, gs, vals, n - 1);
    WriteFieldsReads(whole, gs, vals, n - 1);
    RunOne(p, With(m, file, written), file, gs[n - 1], Value(s, fs[n - 1]), start);
    var after := PutValue(written, gs[n - 1], vals[n - 1]);
    assert With(With(m, file, written), file, after) == With(m, file, after);
  }

  lemma RunOne(p: Platform, m: Memory, file: FileName, f: Field, v: nat, start: nat)
    requires file in m && TablesFile() in m && (f.size == 4 || f.size == 8) && f.at < U32
    requires f.at + f.size <= |m[file].1| && Value(m[file].1, f) == MovedVal(v, start, 0) < |m[TablesFile()].1|
    requires v == 0 || start <= v
    ensures var base := m[TablesFile()].0;
            var tail := if v == 0 then [] else [Pointer(file, f.at, f.size)];
            Exec(tail, p, m)
            == if MovedVal(v, start, base) < Pow256(f.size)
              then Some(With(m, file, PutValue(m[file].1, f, MovedVal(v, start, base)))) else None
  {
    hide Value, PutValue, Step, Pow256, IsUtf8, TablesFile, Pointer;
    if v == 0 {
      PutSameValue(m[file].1, f);
      assert m[file := m[file]] == m;
    } else {
      StepPointer(p, m, file, f);
      ExecOne(Pointer(file, f.at, f.size), p, m);
    }
  }

  // ----- the tables file -----

  ghost function MovedPart(sdts: seq<PlacedTable>, i: nat, base: nat): (r: seq<byte>)
    requires Spaced(sdts) && i < |sdts|
    ensures |r| == |sdts[i].bytes|
  {
    FieldsAreSeparate(sdts[i].signature, |sdts[i].bytes|);
    var fs := PointersIn(sdts[i]);
    WriteFields(Part(sdts, i), fs, MovedVals(sdts[i].bytes, fs, sdts[0].gpa, base), |fs|)
  }

  ghost function SealedPart(sdts: seq<PlacedTable>, i: nat, base: nat): (r: seq<byte>)
    requires Spaced(sdts) && i < |sdts|
    ensures |r| == |sdts[i].bytes|
  {
    Sealed(MovedPart(sdts, i, base), CHECKSUM_OFFSET, 0, |sdts[i].bytes|)
  }

  /** Table `i` when the first `moved` tables have been relocated and the first `sealed` summed. */
  ghost function PartAt(sdts: seq<PlacedTable>, base: nat, moved: nat, sealed: nat, i: nat): (r: seq<byte>)
    requires Spaced(sdts) && i < |sdts|
    ensures |r| == |sdts[i].bytes|
  {
    if i < sealed then SealedPart(sdts, i, base) else if i < moved then MovedPart(sdts, i, base) else Part(sdts, i)
  }

  ghost function PartsAt(sdts: seq<PlacedTable>, base: nat, moved: nat, sealed: nat): (r: seq<seq<byte>>)
    requires Spaced(sdts)
    ensures |r| == |sdts|
    ensures forall i :: 0 <= i < |sdts| ==> r[i] == PartAt(sdts, base, moved, sealed, i)
    ensures Placed(r, Offs(sdts))
  {
    var parts := seq(|sdts|, i requires 0 <= i < |sdts| => PartAt(sdts, base, moved, sealed, i));
    LikePlaced(sdts, parts);
    parts
  }

  ghost function TablesAt(sdts: seq<PlacedTable>, base: nat, moved: nat, sealed: nat): (r: seq<byte>)
    requires Spaced(sdts)
  {
    Blob(PartsAt(sdts, base, moved, sealed), Offs(sdts))
  }

  ghost function Both(rsdpBase: u64, rsdp: seq<byte>, base: u64, tables: seq<byte>): (m: Memory) {
    map[RsdpFile() := (rsdpBase, rsdp), TablesFile() := (base, tables)]
  }

  lemma BothLookup(rsdpBase: u64, rsdp: seq<byte>, base: u64, tables: seq<byte>)
    ensures var m := Both(rsdpBase, rsdp, base, tables);
            && RsdpFile() in m && TablesFile() in m
            && m[RsdpFile()] == (rsdpBase, rsdp) && m[TablesFile()] == (base, tables)
            && (forall t :: With(m, TablesFile(), t) == Both(rsdpBase, rsdp, base, t))
            && (forall r :: With(m, RsdpFile(), r) == Both(rsdpBase, r, base, tables))
  {
    hide RsdpFile, TablesFile, IsUtf8;
    FilesDiffer();
  }

  lemma {:induction false} MovedValBounds(sdts: seq<PlacedTable>, s: seq<byte>, fs: seq<Field>, k: nat)
    requires Spaced(sdts) && Separate(fs, |s|) && Resolved(sdts, s, fs) && k < |fs|
    ensures var v := Value(s, fs[k]);
            && (v == 0 || sdts[0].gpa <= v)
            && MovedVal(v, sdts[0].gpa, 0) < Pow256(fs[k].size)
            && (MovedVal(v, sdts[0].gpa, 0) == 0
                || exists i :: 0 <= i < |sdts| && Offs(sdts)[i] == MovedVal(v, sdts[0].gpa, 0))
  {
    hide FromLE, LE;
    var v := Value(s, fs[k]);
    LEOfFromLE(s[fs[k].at..fs[k].at + fs[k].size]);
    if v != 0 {
      var i :| 0 <= i < |sdts| && sdts[i].gpa == v;
      assert Offs(sdts)[i] == v - sdts[0].gpa;
    }
  }

  /** A relative copy holds the relative values. */
  lemma RelativeValues(sdts: seq<PlacedTable>, s: seq<byte>, fs: seq<Field>)
    requires Spaced(sdts) && Separate(fs, |s|) && Resolved(sdts, s, fs)
    ensures var r := Relative(s, fs, sdts[0].gpa);
            && (forall k :: 0 <= k < |fs| ==> Value(r, fs[k]) == MovedVal(Value(s, fs[k]), sdts[0].gpa, 0))
            && (forall i :: 0 <= i < |s| && !Covered(fs, i) ==> r[i] == s[i])
  {
    hide Value, Pow256, MovedVal, Offs, Spaced, Resolved;
    var vals := MovedVals(s, fs, sdts[0].gpa, 0);
    forall k | 0 <= k < |fs| ensures vals[k] < Pow256(fs[k].size) {
      MovedValBounds(sdts, s, fs, k);
    }
    WriteFieldsReads(s, fs, vals, |fs|);
  }

  lemma PartValues(sdts: seq<PlacedTable>, i: nat)
    requires Spaced(sdts) && AllResolved(sdts) && i < |sdts|
    ensures Separate(PointersIn(sdts[i]), |sdts[i].bytes|) && Resolved(sdts, sdts[i].bytes, PointersIn(sdts[i]))
    ensures var s, fs, r := sdts[i].bytes, PointersIn(sdts[i]), Part(sdts, i);
            && (forall k :: 0 <= k < |fs| ==> Value(r, fs[k]) == MovedVal(Value(s, fs[k]), sdts[0].gpa, 0))
            && (forall j :: 0 <= j < |s| && !Covered(fs, j) && j != CHECKSUM_OFFSET ==> r[j] == s[j])
            && r[CHECKSUM_OFFSET] == 0
  {
    hide Value, MovedVal, FieldsOf, Relative, Covered;
    FieldsAreSeparate(sdts[i].signature, |sdts[i].bytes|);
    var s, fs := sdts[i].bytes, PointersIn(sdts[i]);
    assert Resolved(sdts, s, fs);
    RelativeValues(sdts, s, fs);
    ByteElsewhere(Relative(s, fs, sdts[0].gpa), fs, CHECKSUM_OFFSET, 0);
  }

  /** Before table `i` is moved, the tables file holds its relative pointers. */
  lemma TableHolds(sdts: seq<PlacedTable>, parts: seq<seq<byte>>, i: nat)
    requires Spaced(sdts) && AllResolved(sdts) && i < |sdts|
    requires |parts| == |sdts| && parts[i] == Part(sdts, i)
    requires forall j :: 0 <= j < |sdts| ==> |parts[j]| == |sdts[j].bytes|
    ensures Separate(PointersIn(sdts[i]), |sdts[i].bytes|) && Placed(parts, Offs(sdts))
    ensures var whole := Blob(parts, Offs(sdts));
            HoldsRelative(whole, sdts[i].bytes, PointersIn(sdts[i]), Offs(sdts)[i], sdts[0].gpa, |whole|)
  {
    hide Value, MovedVal, FieldsOf, Part, Covered, Blob, Resolved, AllResolved;
    PartValues(sdts, i);
    LikePlaced(sdts, parts);
    var s, fs, offs := sdts[i].bytes, PointersIn(sdts[i]), Offs(sdts);
    var whole := Blob(parts, offs);
    BlobAt(parts, offs, i);
    forall k | 0 <= k < |fs|
      ensures offs[i] + fs[k].at + fs[k].size <= |whole|
      ensures Value(whole, Shifted(fs[k], offs[i])) == MovedVal(Value(s, fs[k]), sdts[0].gpa, 0) < |whole|
      ensures Value(s, fs[k]) == 0 || sdts[0].gpa <= Value(s, fs[k])
    {
      FieldInside(fs, |s|, k);
      BlobValue(parts, offs, i, fs[k]);
      MovedValBounds(sdts, s, fs, k);
    }
  }

  ghost predicate TableFits(sdts: seq<PlacedTable>, i: nat, base: nat)
    requires Spaced(sdts) && i < |sdts|
  {
    FieldsAreSeparate(sdts[i].signature, |sdts[i].bytes|);
    FitFirst(sdts[i].bytes, PointersIn(sdts[i]), sdts[0].gpa, base, |PointersIn(sdts[i])|)
  }

  lemma RunTable(p: Platform, sdts: seq<PlacedTable>, i: nat, rsdpBase: u64, rsdp: seq<byte>, base: u64)
    requires Spaced(sdts) && AllResolved(sdts) && i < |sdts|
    ensures Exec(TablePointers(sdts, i), p, Both(rsdpBase, rsdp, base, TablesAt(sdts, base, i, 0)))
            == if TableFits(sdts, i, base) then Some(Both(rsdpBase, rsdp, base, TablesAt(sdts, base, i + 1, 0)))
            else None
  {
    hide Value, MovedVal, FieldsOf, Part, Covered, Blob, Separate, Resolved, AllResolved, Exec, FitFirst,
      HoldsRelative, IsUtf8, TablesFile, RsdpFile, Both, Pointers, Spaced, WriteFields;
    var parts, offs := PartsAt(sdts, base, i, 0), Offs(sdts);
    var s, fs := sdts[i].bytes, PointersIn(sdts[i]);
    TableHolds(sdts, parts, i);
    var m := Both(rsdpBase, rsdp, base, TablesAt(sdts, base, i, 0));
    BothLookup(rsdpBase, rsdp, base, TablesAt(sdts, base, i, 0));
    RunPointers(p, m, TablesFile(), s, fs, offs[i], sdts[0].gpa, |fs|);
    var vals := MovedVals(s, fs, sdts[0].gpa, base);
    BlobWriteFields(parts, offs, i, fs, vals, |fs|);
    assert parts[i := MovedPart(sdts, i, base)] == PartsAt(sdts, base, i + 1, 0);
  }

  ghost predicate TablesFit(sdts: seq<PlacedTable>, base: nat, m: nat)
    requires Spaced(sdts) && m <= |sdts|
  {
    forall i :: 0 <= i < m ==> TableFits(sdts, i, base)
  }

  lemma {:induction false} RunTables(p: Platform, sdts: seq<PlacedTable>, m: nat, rsdpBase: u64, rsdp: seq<byte>,
      base: u64)
    requires Spaced(sdts) && AllResolved(sdts) && m <= |sdts|
    ensures Exec(AllPointers(sdts, m), p, Both(rsdpBase, rsdp, base, TablesAt(sdts, base, 0, 0)))
            == if TablesFit(sdts, base, m) then Some(Both(rsdpBase, rsdp, base, TablesAt(sdts, base, m, 0))) else None
  {
    hide Exec, TableFits, Both, TablesAt, TablePointers, Spaced, AllResolved;
    if m == 0 {
      ExecNone(p, Both(rsdpBase, rsdp, base, TablesAt(sdts, base, 0, 0)));
    } else {
      RunTables(p, sdts, m - 1, rsdpBase, rsdp, base);
      ExecAppend(AllPointers(sdts, m - 1), TablePointers(sdts, m - 1), p,
                 Both(rsdpBase, rsdp, base, TablesAt(sdts, base, 0, 0)));
      if TablesFit(sdts, base, m - 1) {
        RunTable(p, sdts, m - 1, rsdpBase, rsdp, base);
      }
    }
  }

  lemma ExecNone(p: Platform, m: Memory)
    ensures Exec([], p, m) == Some(m)
  {
  }

  lemma StepSum(p: Platform, m: Memory, file: FileName, result: u32, start: u32, len: u32)
    requires file in m && result < |m[file].1| && start + len <= |m[file].1|
    ensures Step(AddChecksum(file, result, start, len), p, m)
              == Some(With(m, file, Sealed(m[file].1, result, start, len)))
  {
    hide IsUtf8, Sealed;
  }

  lemma SealInBlob(parts: seq<seq<byte>>, offs: seq<nat>, i: nat)
    requires Placed(parts, offs) && i < |parts| && |parts[i]| >= HEADER_LEN
    ensures offs[i] + |parts[i]| <= |Blob(parts, offs)|
    ensures var part := Sealed(parts[i], CHECKSUM_OFFSET, 0, |parts[i]|);
            && Placed(parts[i := part], offs)
            && Sealed(Blob(parts, offs), offs[i] + CHECKSUM_OFFSET, offs[i], |parts[i]|) == Blob(parts[i := part], offs)
  {
    hide Blob, Placed, Put;
    BlobAt(parts, offs, i);
    var s := parts[i];
    assert s[0..|s|] == s;
    var b := Checksum(s);
    BlobPut(parts, offs, i, CHECKSUM_OFFSET, [b]);
    PutOne(s, CHECKSUM_OFFSET, b);
    PutOne(Blob(parts, offs), offs[i] + CHECKSUM_OFFSET, b);
  }

  lemma PutOne(s: seq<byte>, at: nat, b: byte)
    requires at < |s|
    ensures Put(s, at, [b]) == s[at := b]
  {
  }

  lemma RunSum(p: Platform, sdts: seq<PlacedTable>, i: nat, rsdpBase: u64, rsdp: seq<byte>, base: u64)
    requires Spaced(sdts) && i < |sdts|
    ensures Step(TableSum(sdts, i), p, Both(rsdpBase, rsdp, base, TablesAt(sdts, base, |sdts|, i)))
            == Some(Both(rsdpBase, rsdp, base, TablesAt(sdts, base, |sdts|, i + 1)))
  {
    hide Step, IsUtf8, TablesFile, RsdpFile, Both, Blob, Sealed, MovedPart, Part, Spaced, Placed;
    var parts, offs := PartsAt(sdts, base, |sdts|, i), Offs(sdts);
    SpacedWhole(sdts, i);
    SealInBlob(parts, offs, i);
    assert parts[i] == MovedPart(sdts, i, base);
    assert parts[i := SealedPart(sdts, i, base)] == PartsAt(sdts, base, |sdts|, i + 1);
    BothLookup(rsdpBase, rsdp, base, TablesAt(sdts, base, |sdts|, i));
    StepSum(p, Both(rsdpBase, rsdp, base, TablesAt(sdts, base, |sdts|, i)), TablesFile(),
            offs[i] + CHECKSUM_OFFSET, offs[i], |sdts[i].bytes|);
  }

  lemma {:induction false} RunSums(p: Platform, sdts: seq<PlacedTable>, m: nat, rsdpBase: u64, rsdp: seq<byte>,
      base: u64)
    requires Spaced(sdts) && m <= |sdts|
    ensures Exec(AllSums(sdts, m), p, Both(rsdpBase, rsdp, base, TablesAt(sdts, base, |sdts|, 0)))
            == Some(Both(rsdpBase, rsdp, base, TablesAt(sdts, base, |sdts|, m)))
  {
    hide Exec, Step, Both, TablesAt, TableSum, Spaced;
    var m0 := Both(rsdpBase, rsdp, base, TablesAt(sdts, base, |sdts|, 0));
    if m == 0 {
      ExecNone(p, m0);
    } else {
      RunSums(p, sdts, m - 1, rsdpBase, rsdp, base);
      ExecAppend(AllSums(sdts, m - 1), [TableSum(sdts, m - 1)], p, m0);
      RunSum(p, sdts, m - 1, rsdpBase, rsdp, base);
      ExecOne(TableSum(sdts, m - 1), p, Both(rsdpBase, rsdp, base, TablesAt(sdts, base, |sdts|, m - 1)));
    }
  }

  // ----- the RSDP file -----

  ghost function MovedRsdp(sdts: seq<PlacedTable>, rsdp: seq<byte>, base: nat): (r: seq<byte>)
    requires Spaced(sdts) && |rsdp| == RSDP_LEN
    ensures |r| == RSDP_LEN
  {
    WriteFields(RelativeRsdp(sdts, rsdp), RSDP_FIELDS, MovedVals(rsdp, RSDP_FIELDS, sdts[0].gpa, base), 2)
  }

  ghost function SealedRsdp(sdts: seq<PlacedTable>, rsdp: seq<byte>, base: nat): (r: seq<byte>)
    requires Spaced(sdts) && |rsdp| == RSDP_LEN
    ensures |r| == RSDP_LEN
  {
    var first := Sealed(MovedRsdp(sdts, rsdp, base), RSDP_CHECKSUM_OFFSET, 0, RSDP_V1_LEN);
    Sealed(first, RSDP_EXT_CHECKSUM_OFFSET, 0, RSDP_LEN)
  }

  ghost predicate RsdpFits(sdts: seq<PlacedTable>, rsdp: seq<byte>, base: nat)
    requires Spaced(sdts) && |rsdp| == RSDP_LEN
  {
    FitFirst(rsdp, RSDP_FIELDS, sdts[0].gpa, base, 2)
  }

  lemma RelativeRsdpValues(sdts: seq<PlacedTable>, rsdp: seq<byte>)
    requires Linkable(sdts, rsdp)
    ensures var r, fs := RelativeRsdp(sdts, rsdp), RSDP_FIELDS;
            && (forall k :: 0 <= k < 2 ==> Value(r, fs[k]) == MovedVal(Value(rsdp, fs[k]), sdts[0].gpa, 0))
            && (forall j ::
                  0 <= j < RSDP_LEN && !Covered(fs, j) && j != RSDP_CHECKSUM_OFFSET && j != RSDP_EXT_CHECKSUM_OFFSET ==>
                    r[j] == rsdp[j])
            && r[RSDP_CHECKSUM_OFFSET] == 0 && r[RSDP_EXT_CHECKSUM_OFFSET] == 0
  {
    hide Value, MovedVal, Relative, Covered, Spaced, AllResolved;
    RsdpFieldsSeparate();
    var fs := RSDP_FIELDS;
    RelativeValues(sdts, rsdp, fs);
    var r := Relative(rsdp, fs, sdts[0].gpa);
    ByteElsewhere(r, fs, RSDP_CHECKSUM_OFFSET, 0);
    ByteElsewhere(r[RSDP_CHECKSUM_OFFSET := 0], fs, RSDP_EXT_CHECKSUM_OFFSET, 0);
  }

  lemma RsdpHolds(sdts: seq<PlacedTable>, rsdp: seq<byte>, len: nat)
    requires Linkable(sdts, rsdp) && 0 < len && forall i :: 0 <= i < |sdts| ==> Offs(sdts)[i] < len
    ensures HoldsRelative(RelativeRsdp(sdts, rsdp), rsdp, RSDP_FIELDS, 0, sdts[0].gpa, len)
  {
    hide Value, MovedVal, RelativeRsdp, Spaced, AllResolved;
    RelativeRsdpValues(sdts, rsdp);
    var r, fs := RelativeRsdp(sdts, rsdp), RSDP_FIELDS;
    forall k | 0 <= k < 2
      ensures Value(r, Shifted(fs[k], 0)) == MovedVal(Value(rsdp, fs[k]), sdts[0].gpa, 0) < len
      ensures Value(rsdp, fs[k]) == 0 || sdts[0].gpa <= Value(rsdp, fs[k])
    {
      assert Shifted(fs[k], 0) == fs[k];
      MovedValBounds(sdts, rsdp, fs, k);
    }
  }

  lemma RunRsdpPointers(p: Platform, sdts: seq<PlacedTable>, rsdp: seq<byte>, rsdpBase: u64, base: u64,
      tables: seq<byte>)
    requires Linkable(sdts, rsdp) && 0 < |tables| && forall i :: 0 <= i < |sdts| ==> Offs(sdts)[i] < |tables|
    ensures Exec(RsdpPointers(rsdp), p, Both(rsdpBase, RelativeRsdp(sdts, rsdp), base, tables))
            == if RsdpFits(sdts, rsdp, base) then Some(Both(rsdpBase, MovedRsdp(sdts, rsdp, base), base, tables))
            else None
  {
    hide Value, MovedVal, RelativeRsdp, Spaced, AllResolved, Exec, Pointers, HoldsRelative, FitFirst, WriteFields,
      Both, IsUtf8, RsdpFile, TablesFile;
    RsdpHolds(sdts, rsdp, |tables|);
    RsdpFieldsSeparate();
    var relative := RelativeRsdp(sdts, rsdp);
    BothLookup(rsdpBase, relative, base, tables);
    RunPointers(p, Both(rsdpBase, relative, base, tables), RsdpFile(), rsdp, RSDP_FIELDS, 0, sdts[0].gpa, 2);
  }

  lemma RunRsdpSums(p: Platform, rsdp: seq<byte>, rsdpBase: u64, base: u64, tables: seq<byte>)
    requires |rsdp| == RSDP_LEN
    ensures var first := Sealed(rsdp, RSDP_CHECKSUM_OFFSET, 0, RSDP_V1_LEN);
            Exec(RsdpSums(), p, Both(rsdpBase, rsdp, base, tables))
            == Some(Both(rsdpBase, Sealed(first, RSDP_EXT_CHECKSUM_OFFSET, 0, RSDP_LEN), base, tables))
  {
    hide Exec, Step, Sealed, Both, IsUtf8, RsdpFile, TablesFile;
    var m := Both(rsdpBase, rsdp, base, tables);
    var first := Sealed(rsdp, RSDP_CHECKSUM_OFFSET, 0, RSDP_V1_LEN);
    var m' := Both(rsdpBase, first, base, tables);
    var a, b := RsdpSums()[0], RsdpSums()[1];
    assert RsdpSums() == [a] + [b];
    ExecAppend([a], [b], p, m);
    ExecOne(a, p, m);
    BothLookup(rsdpBase, rsdp, base, tables);
    StepSum(p, m, RsdpFile(), RSDP_CHECKSUM_OFFSET, 0, RSDP_V1_LEN);
    ExecOne(b, p, m');
    BothLookup(rsdpBase, first, base, tables);
    StepSum(p, m', RsdpFile(), RSDP_EXT_CHECKSUM_OFFSET, 0, RSDP_LEN);
  }

  // ----- the whole script -----

  /** The files of a build and any two addresses for them. */
  ghost function PlatformFor(blobs: LoaderBlobs, rsdpBase: u64, base: u64): (p: Platform) {
    Platform(map[RsdpFile() := blobs.rsdp, TablesFile() := blobs.tables],
      map[RsdpFile() := rsdpBase, TablesFile() := base])
  }

  lemma RunAllocates(blobs: LoaderBlobs, rsdpBase: u64, base: u64)
    ensures Exec(Allocates(), PlatformFor(blobs, rsdpBase, base), map[])
              == Some(Both(rsdpBase, blobs.rsdp, base, blobs.tables))
  {
    hide IsUtf8, RsdpFile, TablesFile;
    FilesDiffer();
    var p := PlatformFor(blobs, rsdpBase, base);
    var a, b := Allocates()[0], Allocates()[1];
    assert Allocates() == [a] + [b];
    ExecAppend([a], [b], p, map[]);
    ExecOne(a, p, map[]);
    var m: Memory := map[RsdpFile() := (rsdpBase, blobs.rsdp)];
    assert Step(a, p, map[]) == Some(m);
    ExecOne(b, p, m);
    assert m[TablesFile() := (base, blobs.tables)] == Both(rsdpBase, blobs.rsdp, base, blobs.tables);
  }

  /** Every relocated pointer is representable in its field. */
  ghost predicate Representable(sdts: seq<PlacedTable>, rsdp: seq<byte>, base: nat)
    requires Spaced(sdts) && |rsdp| == RSDP_LEN
  {
    TablesFit(sdts, base, |sdts|) && RsdpFits(sdts, rsdp, base)
  }

  ghost function Relocated(sdts: seq<PlacedTable>, rsdp: seq<byte>, rsdpBase: u64, base: u64): (m: Memory)
    requires Spaced(sdts) && |rsdp| == RSDP_LEN
  {
    Both(rsdpBase, SealedRsdp(sdts, rsdp, base), base, TablesAt(sdts, base, |sdts|, |sdts|))
  }

  lemma TablesAtStart(sdts: seq<PlacedTable>, rsdp: seq<byte>, base: nat)
    requires Spaced(sdts) && |rsdp| == RSDP_LEN
    ensures Compiled(sdts, rsdp).tables == TablesAt(sdts, base, 0, 0)
  {
    hide Part, Blob, Script, RelativeRsdp;
    assert FileParts(sdts) == PartsAt(sdts, base, 0, 0);
  }

  /** The compiled script runs to completion exactly when every relocated pointer fits its field. */
  lemma ScriptRelocates(sdts: seq<PlacedTable>, rsdp: seq<byte>, rsdpBase: u64, base: u64)
    requires Linkable(sdts, rsdp)
    ensures var blobs := Compiled(sdts, rsdp);
            Exec(blobs.commands, PlatformFor(blobs, rsdpBase, base), map[])
            == if Representable(sdts, rsdp, base) then Some(Relocated(sdts, rsdp, rsdpBase, base)) else None
  {
    hide Exec, Allocates, AllPointers, AllSums, RsdpPointers, RsdpSums, Both, PlatformFor, TablesAt, RelativeRsdp,
      Spaced, AllResolved, TablesFit, RsdpFits, Sealed, MovedRsdp, FileParts, Blob;
    var blobs := Compiled(sdts, rsdp);
    var p := PlatformFor(blobs, rsdpBase, base);
    var n := |sdts|;
    var relative := RelativeRsdp(sdts, rsdp);
    TablesAtStart(sdts, rsdp, base);
    RunAllocates(blobs, rsdpBase, base);
    RunTables(p, sdts, n, rsdpBase, relative, base);
    RunSums(p, sdts, n, rsdpBase, relative, base);
    var summed := TablesAt(sdts, base, n, n);
    SummedHolds(sdts, base);
    RunRsdpPointers(p, sdts, rsdp, rsdpBase, base, summed);
    RunRsdpSums(p, MovedRsdp(sdts, rsdp, base), rsdpBase, base, summed);
    ExecFive(Allocates(), AllPointers(sdts, n), AllSums(sdts, n), RsdpPointers(rsdp), RsdpSums(), p);
  }

  lemma SummedHolds(sdts: seq<PlacedTable>, base: nat)
    requires Spaced(sdts)
    ensures var t := TablesAt(sdts, base, |sdts|, |sdts|);
            0 < |t| && forall i :: 0 <= i < |sdts| ==> Offs(sdts)[i] < |t|
  {
    hide SealedPart, Blob;
    LikePlaced(sdts, PartsAt(sdts, base, |sdts|, |sdts|));
  }

  ghost function Then(m: Option<Memory>, cs: seq<LoaderCommand>, p: Platform): (r: Option<Memory>) {
    if m.None? then None else Exec(cs, p, m.value)
  }

  lemma ExecFive(a: seq<LoaderCommand>, b: seq<LoaderCommand>, c: seq<LoaderCommand>, d: seq<LoaderCommand>,
      e: seq<LoaderCommand>, p: Platform)
    ensures Exec(a + b + c + d + e, p, map[]) == Then(Then(Then(Then(Exec(a, p, map[]), b, p), c, p), d, p), e, p)
  {
    hide Exec;
    ExecAppend(a + b + c + d, e, p, map[]);
    ExecAppend(a + b + c, d, p, map[]);
    ExecAppend(a + b, c, p, map[]);
    ExecAppend(a, b, p, map[]);
  }
}
