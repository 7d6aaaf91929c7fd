/** Both results for what `AcpiTables::build` produces. */
module BuiltRelocation {
  import opened Results
  import opened Bytes
  import opened Sdt
  import opened Config
  import opened Layout
  import opened Tables
  import opened Loader
  import opened LoaderInput
  import opened LoaderCommands
  import opened Firmware
  import opened Relocation
  import opened RelocatedSets
  import opened BuiltSets
  import opened Rebuild
  import opened Installing
  import Madt
  import Gtdt
  import Mcfg
  import Spcr
  import Dbg2
  import Tpm2
  import Fadt
  import Xsdt
  import Dsdt

  const MAX_BUILT: nat := 0xb000

  lemma {:induction false} OffsetBound(lens: seq<nat>, i: nat)
    requires i < |lens| && forall k :: 0 <= k < |lens| ==> lens[k] <= MAX_BUILT
    ensures OffsetAt(lens, i) <= i * 0xb008
  {
    hide AlignUp;
    if i > 0 {
      OffsetBound(lens, i - 1);
    }
  }

  lemma LeafLengths(c: AcpiConfig, i: nat)
    requires Valid(c) && Encodable(c) && i < |LeafBytes(c)|
    ensures |LeafBytes(c)[i]| <= MAX_BUILT
  {
    hide Madt.Madt, Madt.Body, Gtdt.Gtdt, Mcfg.Mcfg, Spcr.Spcr, Dbg2.Dbg2, Tpm2.Tpm2;
    if i == 0 {
      MadtLength(c);
    } else if i == 1 {
      Gtdt.GtdtRoundTrip(c.timer);
    } else if i == 2 {
      Mcfg.McfgRoundTrip(c.ecam);
    } else if i == 3 {
      Spcr.SpcrRoundTrip(c.uart);
    } else if i == 4 {
      Dbg2.Dbg2RoundTrip(c.uart);
    } else {
      Tpm2.Tpm2RoundTrip(c.tpm.value);
    }
  }

  lemma MadtLength(c: AcpiConfig)
    requires Valid(c)
    ensures |Madt.Madt(c).value| <= MAX_BUILT
  {
    hide Madt.Body;
    Madt.BodyLength(c);
  }

  lemma DsdtLength(c: AcpiConfig)
    requires Valid(c) && Encodable(c)
    ensures |DsdtBytes(c)| <= 0x2000
  {
    hide Valid, Encodable, Dsdt.Dsdt, Dsdt.Describable;
    var d := DsdtBytes(c);
    assert Dsdt.Dsdt(c) == Ok(d);
    Dsdt.DsdtBuilds(c);
  }

  lemma SmallParts(p: Parts)
    requires |p.dsdt| <= 0x2000 && forall i :: 0 <= i < |p.leaves| ==> |p.leaves[i]| <= MAX_BUILT
    ensures Total(p) <= MAX_TABLES_BYTES
  {
    hide OffsetAt;
    var lens := Lens(p);
    assert forall k :: 0 <= k < |lens| ==> lens[k] <= MAX_BUILT;
    OffsetBound(lens, |lens| - 1);
  }

  lemma SmallTotal(c: AcpiConfig)
    requires Valid(c) && Encodable(c)
    ensures Total(PartsOf(c)) <= MAX_TABLES_BYTES
  {
    hide Valid, Encodable, DsdtBytes, LeafBytes, LeafSignatures, Total, IsSdt;
    DsdtLength(c);
    forall i | 0 <= i < |LeafBytes(c)| ensures |LeafBytes(c)[i]| <= MAX_BUILT {
      LeafLengths(c, i);
    }
    SmallParts(PartsOf(c));
  }

  lemma PartsAreOrdinary(c: AcpiConfig)
    requires Valid(c) && Encodable(c)
    ensures Sound(PartsOf(c)) && Ordinary(PartsOf(c))
  {
    hide Valid, Encodable, DsdtBytes, LeafBytes, Total, Sound;
    PartsAreSound(c);
    SmallTotal(c);
    OrdinarySignatures(c.tpm.Some?);
  }

  lemma OrdinarySignatures(tpm: bool)
    ensures var ss := LeafSignatures(tpm);
            forall i :: 0 <= i < |ss| ==> ss[i] != Xsdt.SIGNATURE && ss[i] != Fadt.SIGNATURE && ss[i] !in ROOT_TABLES
  {
  }

  /** `m` holds the tables of `us`, byte for byte, from where `us` puts its XSDT. */
  ghost predicate Holds(m: Memory, rsdpBase: nat, us: seq<PlacedTable>)
    requires |us| >= 2
  {
    && RsdpFile() in m && TablesFile() in m
    && m[RsdpFile()] == (rsdpBase, us[0].bytes)
    && m[TablesFile()].0 == us[1].gpa
    && forall i :: 1 <= i < |us| ==>
         var at := us[i].gpa - us[1].gpa;
         0 <= at && at + |us[i].bytes| <= |m[TablesFile()].1|
         && m[TablesFile()].1[at..at + |us[i].bytes|] == us[i].bytes
  }

  lemma RebuiltHolds(p: Parts, c: u64, rsdpBase: u64)
    requires Fits(p, c) && Sound(p) && Ordinary(p)
    ensures Holds(Rebuilt(p, c, rsdpBase), rsdpBase, TableSet(p, c))
  {
    hide BytesOf, Gpa, Fits, Ordinary, Sound, Image, Both, IsUtf8, RsdpFile, TablesFile, SignatureOf;
    BothLookup(rsdpBase, BytesOf(p, c, 0), Gpa(p, c, 1), Image(p, c));
    var us := TableSet(p, c);
    var m := Rebuilt(p, c, rsdpBase);
    forall i | 1 <= i < |us|
      ensures var at := us[i].gpa - us[1].gpa;
              0 <= at && at + |us[i].bytes| <= |m[TablesFile()].1|
              && m[TablesFile()].1[at..at + |us[i].bytes|] == us[i].bytes
    {
      ImageHolds(p, c, i);
    }
  }

  lemma BuiltIs(base: u64, size: u64, c: AcpiConfig)
    requires Built(base, size, c).Ok?
    ensures Valid(c) && Encodable(c) && Fits(PartsOf(c), base) && Built(base, size, c) == Ok(TableSet(PartsOf(c), base))
  {
    hide Valid, Encodable, PartsOf, Total;
  }

  /**
    Relocating equals rebuilding: compiled from a build at `base` and run with
    the tables file where a build at `base'` puts its XSDT, the script
    completes and leaves that other build.
   */
  lemma RelocatingIsRebuilding(base: u64, size: u64, base': u64, size': u64, c: AcpiConfig, rsdpBase: u64)
    requires Built(base, size, c).Ok? && Built(base', size', c).Ok?
    ensures var ts, us := Built(base, size, c).value, Built(base', size', c).value;
            && Accepts(ts) && |us| >= 2
            && var blobs := CompiledSet(ts);
               var run := Exec(blobs.commands, PlatformFor(blobs, rsdpBase, us[1].gpa), map[]);
               run.Some? && Holds(run.value, rsdpBase, us)
  {
    hide Built, Valid, Encodable, PartsOf, Fits, Accepts, CompiledSet, Exec, PlatformFor, Holds, Sound, Ordinary, Both,
      Image, BytesOf;
    BuiltIs(base, size, c);
    BuiltIs(base', size', c);
    PartsAreOrdinary(c);
    var p := PartsOf(c);
    RunRebuilds(p, base, base', rsdpBase);
    RebuiltHolds(p, base', rsdpBase);
  }

  /** Where table `i` of `ts` lies in a tables file that keeps the distances from the XSDT. */
  ghost predicate InFile(ts: seq<PlacedTable>, file: seq<byte>)
    requires |ts| >= 2
  {
    forall i :: 1 <= i < |ts| ==> ts[1].gpa <= ts[i].gpa && ts[i].gpa - ts[1].gpa + |ts[i].bytes| <= |file|
  }

  ghost function SliceOf(ts: seq<PlacedTable>, file: seq<byte>, i: nat): (r: seq<byte>)
    requires 1 <= i < |ts| && InFile(ts, file)
  {
    file[ts[i].gpa - ts[1].gpa..ts[i].gpa - ts[1].gpa + |ts[i].bytes|]
  }

  /** The FADT, then tables 4 on, then the DSDT: everything but the RSDP and the XSDT, each once. */
  ghost function AllButRoots(ts: seq<PlacedTable>, file: seq<byte>): (r: seq<seq<byte>>)
    requires |ts| >= 4 && InFile(ts, file)
  {
    [SliceOf(ts, file, 2)]
    + seq(|ts| - 4, i requires 0 <= i < |ts| - 4 => SliceOf(ts, file, 4 + i))
    + [SliceOf(ts, file, 3)]
  }

  /** The same tables in the same order, taken from the list. */
  ghost function NonRoots(ts: seq<PlacedTable>): (r: seq<seq<byte>>)
    requires |ts| >= 4
  {
    [ts[2].bytes] + seq(|ts| - 4, i requires 0 <= i < |ts| - 4 => ts[4 + i].bytes) + [ts[3].bytes]
  }

  lemma SetInFile(p: Parts, b: u64, at: u64)
    requires Moves(p, b, at)
    ensures var n := |SdtsOf(p, b)|;
            var ts, file := TableSet(p, b), TablesAt(SdtsOf(p, b), at, n, n);
            InFile(ts, file) && forall i :: 1 <= i < |ts| ==> SliceOf(ts, file, i) == MovedTable(p, b, at, i)
  {
    hide BytesOf, Gpa, Total, Ordinary, Sound, Moves, MovedTable, TablesAt, Address, SignatureOf, Fits, Spaced,
      AllResolved, Resolved;
    var n := |SdtsOf(p, b)|;
    var ts, file := TableSet(p, b), TablesAt(SdtsOf(p, b), at, n, n);
    forall i | 1 <= i < |ts|
      ensures ts[1].gpa <= ts[i].gpa && ts[i].gpa - ts[1].gpa + |ts[i].bytes| <= |file|
      ensures file[ts[i].gpa - ts[1].gpa..ts[i].gpa - ts[1].gpa + |ts[i].bytes|] == MovedTable(p, b, at, i)
    {
      FileHolds(p, b, at, i);
    }
  }

  lemma DeliveredIs(p: Parts, b: u64, at: u64, file: seq<byte>)
    requires Moves(p, b, at) && InFile(TableSet(p, b), file)
    requires forall i :: 1 <= i < Count(p) ==> SliceOf(TableSet(p, b), file, i) == MovedTable(p, b, at, i)
    ensures Delivered(p, b, at, 2 + |p.leaves|) == AllButRoots(TableSet(p, b), file)
  {
    hide BytesOf, Gpa, Total, Ordinary, Sound, Moves, MovedTable, TableAt, Fits, InFile, SliceOf, Spaced, Delivered;
    var n := 2 + |p.leaves|;
    var r := AllButRoots(TableSet(p, b), file);
    forall k | 0 <= k < n ensures Delivered(p, b, at, n)[k] == r[k] {
      DeliveredAt(p, b, at, n, k);
    }
  }

  lemma RunInstalls(p: Parts, b: u64, at: u64, rsdpBase: u64)
    requires Moves(p, b, at)
    ensures Accepts(TableSet(p, b))
    ensures var blobs := CompiledSet(TableSet(p, b));
            var run := Exec(blobs.commands, PlatformFor(blobs, rsdpBase, at), map[]);
            && run.Some? && TablesFile() in run.value
            && var file := run.value[TablesFile()].1;
               InFile(TableSet(p, b), file)
               && Installed(blobs.commands, run.value, {}) == AllButRoots(TableSet(p, b), file)
  {
    hide BytesOf, Total, Ordinary, Sound, MovedTable, TablesAt, Fits, Spaced, AllResolved, Resolved, Accepts, Exec,
      Compiled, PlatformFor, TablesFit, RsdpFits, SealedRsdp, Both, SortByGpa, Sdts, Rsdps, TableSet, SdtsOf,
      Installed, Delivered, AllButRoots, InFile, SliceOf, IsUtf8, TablesFile, RsdpFile;
    SetAccepted(p, b);
    FitsWhen(p, b, at);
    var sdts, rsdp, n := SdtsOf(p, b), BytesOf(p, b, 0), |SdtsOf(p, b)|;
    ScriptRelocates(sdts, rsdp, rsdpBase, at);
    var file := TablesAt(sdts, at, n, n);
    BothLookup(rsdpBase, SealedRsdp(sdts, rsdp, at), at, file);
    InstallsEach(p, b, at, rsdpBase);
    SetInFile(p, b, at);
    DeliveredIs(p, b, at, file);
  }

  lemma NoRun(p: Parts, b: u64, at: u64, rsdpBase: u64)
    requires Fits(p, b) && Sound(p) && Ordinary(p) && !Moves(p, b, at)
    ensures Accepts(TableSet(p, b))
    ensures var blobs := CompiledSet(TableSet(p, b));
            Exec(blobs.commands, PlatformFor(blobs, rsdpBase, at), map[]) == None
  {
    hide BytesOf, Total, Ordinary, Sound, Fits, Spaced, AllResolved, Resolved, Accepts, Exec, Compiled, PlatformFor,
      Representable, Relocated, SortByGpa, Sdts, Rsdps, TableSet, SdtsOf;
    SetAccepted(p, b);
    FitsWhen(p, b, at);
    ScriptRelocates(SdtsOf(p, b), BytesOf(p, b, 0), rsdpBase, at);
  }

  lemma LastAddress(p: Parts, b: u64, at: nat)
    requires Fits(p, b)
    ensures var ts := TableSet(p, b); Address(p, at, Count(p) - 1) == at + ts[|ts| - 1].gpa - ts[1].gpa
  {
    hide BytesOf, Total, Offset, SignatureOf, Address;
  }

  /**
    Wherever the tables file is put, the script compiled from a build runs
    to completion exactly when the last table then starts below 2^64, and
    the second pass over what it leaves installs every table of the build
    but the RSDP and the XSDT, each exactly once.
   */
  lemma InstallsAllButRoots(base: u64, size: u64, c: AcpiConfig, rsdpBase: u64, at: u64)
    requires Built(base, size, c).Ok?
    ensures var ts := Built(base, size, c).value;
            && |ts| >= 4 && Accepts(ts)
            && var blobs := CompiledSet(ts);
               var run := Exec(blobs.commands, PlatformFor(blobs, rsdpBase, at), map[]);
               && (run.Some? <==> at + ts[|ts| - 1].gpa - ts[1].gpa < U64)
               && (run.Some? ==>
                     && TablesFile() in run.value && RelocatedTo(ts, run.value, rsdpBase, at)
                     && var file := run.value[TablesFile()].1;
                        InFile(ts, file) && Installed(blobs.commands, run.value, {}) == AllButRoots(ts, file))
  {
    hide Built, Valid, Encodable, PartsOf, Fits, Accepts, CompiledSet, Exec, PlatformFor, Sound, Ordinary, BytesOf,
      Installed, AllButRoots, InFile, TableAt, Moves, Address, RelocatedTo, Relocatable, IsUtf8, TablesFile;
    BuiltIs(base, size, c);
    PartsAreOrdinary(c);
    var p := PartsOf(c);
    LastAddress(p, base, at);
    MovesWhen(p, base, at);
    if Moves(p, base, at) {
      RunInstalls(p, base, at, rsdpBase);
      ScriptMeaning(TableSet(p, base), rsdpBase, at);
    } else {
      NoRun(p, base, at, rsdpBase);
    }
  }

  /** Table `i` has the same length and distance from the XSDT in both lists, and `file` holds `us[i]` there. */
  ghost predicate HeldAt(ts: seq<PlacedTable>, us: seq<PlacedTable>, file: seq<byte>, i: nat)
    requires 1 <= i < |ts| == |us|
  {
    && |ts[i].bytes| == |us[i].bytes|
    && ts[i].gpa - ts[1].gpa == us[i].gpa - us[1].gpa
    && var at := us[i].gpa - us[1].gpa;
       0 <= at && at + |us[i].bytes| <= |file| && file[at..at + |us[i].bytes|] == us[i].bytes
  }

  lemma HeldBoth(base: u64, size: u64, base': u64, size': u64, c: AcpiConfig, m: Memory, rsdpBase: u64, i: nat)
    requires Built(base, size, c).Ok? && Built(base', size', c).Ok?
    requires 1 <= i < |Built(base, size, c).value|
    requires |Built(base', size', c).value| >= 2 && Holds(m, rsdpBase, Built(base', size', c).value)
    ensures var ts, us := Built(base, size, c).value, Built(base', size', c).value;
            && |us| == |ts|
            && TablesFile() in m && HeldAt(ts, us, m[TablesFile()].1, i)
  {
    hide Built, IsUtf8, TablesFile, RsdpFile;
    OffsetsIndependent(base, size, base', size', c);
    SameLengths(base, size, base', size', c);
  }

  lemma SameLengths(base: u64, size: u64, base': u64, size': u64, c: AcpiConfig)
    requires Built(base, size, c).Ok? && Built(base', size', c).Ok?
    ensures var ts, us := Built(base, size, c).value, Built(base', size', c).value;
            |ts| == |us| && forall i :: 0 <= i < |ts| ==> |ts[i].bytes| == |us[i].bytes|
  {
    hide Valid, Encodable, PartsOf, Total, BytesOf;
  }

  lemma SlicesAre(ts: seq<PlacedTable>, us: seq<PlacedTable>, file: seq<byte>)
    requires |ts| == |us| >= 4 && InFile(ts, file)
    requires forall i :: 1 <= i < |ts| ==> HeldAt(ts, us, file, i)
    ensures AllButRoots(ts, file) == NonRoots(us)
  {
    hide InFile, SliceOf, AllButRoots, NonRoots, HeldAt;
    forall i | 1 <= i < |ts| ensures SliceOf(ts, file, i) == us[i].bytes {
      SliceIs(ts, us, file, i);
    }
    SlicesListed(ts, us, file);
  }

  lemma SlicesListed(ts: seq<PlacedTable>, us: seq<PlacedTable>, file: seq<byte>)
    requires |ts| == |us| >= 4 && InFile(ts, file)
    requires forall i :: 1 <= i < |ts| ==> SliceOf(ts, file, i) == us[i].bytes
    ensures AllButRoots(ts, file) == NonRoots(us)
  {
    hide InFile, SliceOf;
  }

  lemma SliceIs(ts: seq<PlacedTable>, us: seq<PlacedTable>, file: seq<byte>, i: nat)
    requires 1 <= i < |ts| == |us| && InFile(ts, file) && HeldAt(ts, us, file, i)
    ensures SliceOf(ts, file, i) == us[i].bytes
  {
  }

  /** Where a second build puts its XSDT, what is installed is that build's tables. */
  lemma InstallsRebuilt(base: u64, size: u64, base': u64, size': u64, c: AcpiConfig, rsdpBase: u64)
    requires Built(base, size, c).Ok? && Built(base', size', c).Ok?
    ensures var ts, us := Built(base, size, c).value, Built(base', size', c).value;
            && Accepts(ts) && |us| == |ts| >= 4
            && var blobs := CompiledSet(ts);
               var run := Exec(blobs.commands, PlatformFor(blobs, rsdpBase, us[1].gpa), map[]);
               run.Some? && Installed(blobs.commands, run.value, {}) == NonRoots(us)
  {
    hide Built, Accepts, CompiledSet, Exec, PlatformFor, Installed, NonRoots, AllButRoots, HeldAt, Holds, InFile,
      RelocatedTo, IsUtf8, TablesFile, RsdpFile;
    RelocatingIsRebuilding(base, size, base', size', c, rsdpBase);
    var ts, us := Built(base, size, c).value, Built(base', size', c).value;
    InstallsAllButRoots(base, size, c, rsdpBase, us[1].gpa);
    var blobs := CompiledSet(ts);
    var run := Exec(blobs.commands, PlatformFor(blobs, rsdpBase, us[1].gpa), map[]);
    var file := run.value[TablesFile()].1;
    HeldBoth(base, size, base', size', c, run.value, rsdpBase, 1);
    forall i | 1 <= i < |ts| ensures HeldAt(ts, us, file, i) {
      HeldBoth(base, size, base', size', c, run.value, rsdpBase, i);
    }
    SlicesAre(ts, us, file);
  }
}
