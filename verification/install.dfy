/** The firmware's second pass over a relocated set installs every table but the XSDT, once. */
module Installing {
  import opened Results
  import opened Bytes
  import opened Sdt
  import opened Blobs
  import opened PointerFields
  import opened LoaderCommands
  import opened Layout
  import opened Loader
  import opened LoaderInput
  import LoaderBuild
  import opened Firmware
  import opened Relocation
  import opened Moving
  import opened BuiltSets
  import opened Rebuild
  import Fadt
  import Xsdt
  import Dsdt

  datatype Pointee = Pointee(address: nat, file: FileName)

  function PointeeOf(c: LoaderCommand, m: Memory): (r: seq<Pointee>) {
    if Target(c, m).None? then [] else [Pointee(Target(c, m).value, c.pointee)]
  }

  /** What the pointer commands point at, in script order. */
  function Pointees(cs: seq<LoaderCommand>, m: Memory): (r: seq<Pointee>) {
    if cs == [] then [] else PointeeOf(cs[0], m) + Pointees(cs[1..], m)
  }

  function InstallAll(ps: seq<Pointee>, m: Memory): (r: seq<seq<byte>>) {
    if ps == [] then [] else Installs(ps[0].address, ps[0].file, m) + InstallAll(ps[1..], m)
  }

  ghost predicate Distinct(ps: seq<Pointee>, seen: set<nat>) {
    && (forall i :: 0 <= i < |ps| ==> ps[i].address !in seen)
    && (forall i, j :: 0 <= i < j < |ps| ==> ps[i].address != ps[j].address)
  }

  /** Distinct targets are all looked at. */
  lemma {:induction false} InstalledIsAll(cs: seq<LoaderCommand>, m: Memory, seen: set<nat>)
    requires Distinct(Pointees(cs, m), seen)
    ensures Installed(cs, m, seen) == InstallAll(Pointees(cs, m), m)
  {
    hide Target, Installs;
    if cs != [] {
      var ps := Pointees(cs, m);
      if Target(cs[0], m).None? {
        assert ps == Pointees(cs[1..], m);
        InstalledIsAll(cs[1..], m, seen);
      } else {
        assert ps[0].address == Target(cs[0], m).value;
        assert ps[1..] == Pointees(cs[1..], m);
        InstalledIsAll(cs[1..], m, seen + {Target(cs[0], m).value});
      }
    }
  }

  lemma {:induction false} PointeesAppend(a: seq<LoaderCommand>, b: seq<LoaderCommand>, m: Memory)
    ensures Pointees(a + b, m) == Pointees(a, m) + Pointees(b, m)
  {
    hide PointeeOf;
    if a == [] {
      assert a + b == b;
    } else {
      PointeesAppend(a[1..], b, m);
      assert (a + b)[1..] == a[1..] + b && (a + b)[0] == a[0];
      Associate(PointeeOf(a[0], m), Pointees(a[1..], m), Pointees(b, m));
    }
  }

  lemma {:induction false} InstallAllAppend(a: seq<Pointee>, b: seq<Pointee>, m: Memory)
    ensures InstallAll(a + b, m) == InstallAll(a, m) + InstallAll(b, m)
  {
    hide Installs;
    if a == [] {
      assert a + b == b;
    } else {
      InstallAllAppend(a[1..], b, m);
      assert (a + b)[1..] == a[1..] + b && (a + b)[0] == a[0];
      Associate(Installs(a[0].address, a[0].file, m), InstallAll(a[1..], m), InstallAll(b, m));
    }
  }

  // ----- what the script's pointers hold -----

  ghost function NonZero(was: seq<nat>, now: seq<nat>, n: nat): (r: seq<nat>)
    requires n <= |was| == |now|
  {
    if n == 0 then [] else NonZero(was, now, n - 1) + if was[n - 1] == 0 then [] else [now[n - 1]]
  }

  function InTables(vs: seq<nat>): (r: seq<Pointee>)
    ensures |r| == |vs|
    ensures forall i :: 0 <= i < |vs| ==> r[i] == Pointee(vs[i], TablesFile())
  {
    seq(|vs|, i requires 0 <= i < |vs| => Pointee(vs[i], TablesFile()))
  }

  lemma PointeesOne(file: FileName, f: Field, m: Memory)
    requires file in m && f.at + f.size <= |m[file].1| && f.at < U32 && f.size < 256
    ensures Pointees([Pointer(file, f.at, f.size)], m) == [Pointee(Value(m[file].1, f), TablesFile())]
  {
    hide IsUtf8, TablesFile, FromLE;
  }

  lemma {:induction false} PointeesOfFields(file: FileName, s: seq<byte>, fs: seq<Field>, at: nat, n: nat, m: Memory,
      was: seq<nat>, now: seq<nat>)
    requires file in m && at + |s| <= |m[file].1| && at + |s| < U32
    requires n <= |fs| == |was| == |now|
             && forall k :: 0 <= k < |fs| ==> fs[k].at + fs[k].size <= |s| && fs[k].size < 256
    requires forall k :: 0 <= k < |fs| ==>
               0 < fs[k].size && Value(s, fs[k]) == was[k] && Value(m[file].1, Shifted(fs[k], at)) == now[k]
    ensures Pointees(Pointers(file, s, fs, at, n), m) == InTables(NonZero(was, now, n))
  {
    hide Value, IsUtf8, TablesFile, Pointer, Pointees;
    if n == 0 {
      PointeesNone(m);
    } else {
      PointeesOfFields(file, s, fs, at, n - 1, m, was, now);
      var tail := if Value(s, fs[n - 1]) == 0 then [] else [Pointer(file, at + fs[n - 1].at, fs[n - 1].size)];
      PointeesAppend(Pointers(file, s, fs, at, n - 1), tail, m);
      if was[n - 1] == 0 {
        PointeesNone(m);
      } else {
        PointeesOne(file, Shifted(fs[n - 1], at), m);
      }
    }
  }

  lemma PointeesNone(m: Memory)
    ensures Pointees([], m) == []
  {
  }

  lemma {:induction false} PointeesOfSums(sdts: seq<PlacedTable>, k: nat, m: Memory)
    requires Spaced(sdts) && k <= |sdts|
    ensures Pointees(AllSums(sdts, k), m) == []
  {
    hide Spaced, IsUtf8, TablesFile, Offs;
    if k > 0 {
      PointeesOfSums(sdts, k - 1, m);
      PointeesAppend(AllSums(sdts, k - 1), [TableSum(sdts, k - 1)], m);
    }
  }

  // ----- a run at any address -----

  /** Where table `i` ends up: its distance from the XSDT is kept. */
  function Address(p: Parts, at: nat, i: nat): (r: nat)
    requires 1 <= i < Count(p)
    ensures r == at + Offset(p, i) - Offset(p, 1) && at <= r
  {
    if i > 1 then
      OffsetsOrdered(Lens(p), 1, i);
      at + Offset(p, i) - Offset(p, 1)
    else at
  }

  /** A laid-out set, and an address for its tables file at which the last table starts below 2^64. */
  ghost predicate Moves(p: Parts, b: u64, at: u64): (r: bool)
    ensures r ==> Fits(p, b) && Sound(p) && Ordinary(p) && Spaced(SdtsOf(p, b)) && |BytesOf(p, b, 0)| == RSDP_LEN
  {
    hide Gpa, Total, Ordinary, Sound, Spaced, Address;
    && Fits(p, b) && Sound(p) && Ordinary(p)
    && (SetSpaced(p, b); Address(p, at, Count(p) - 1) < U64)
  }

  lemma MovesWhen(p: Parts, b: u64, at: u64)
    requires Fits(p, b) && Sound(p) && Ordinary(p)
    ensures Moves(p, b, at) <==> Address(p, at, Count(p) - 1) < U64
  {
    hide BytesOf, Gpa, Total, Ordinary, Sound, Address, Spaced, Fits;
  }

  ghost function Left(p: Parts, b: u64, at: u64, rsdpBase: u64): (m: Memory)
    requires Moves(p, b, at)
  {
    hide BytesOf, Gpa, Total, Ordinary, Sound, Accepts, AllResolved, Resolved, Spaced, Address;
    SetAccepted(p, b);
    Relocated(SdtsOf(p, b), BytesOf(p, b, 0), rsdpBase, at)
  }

  lemma AddressesDiffer(p: Parts, b: u64, at: nat, i: nat, j: nat)
    requires Fits(p, b) && Sound(p) && 1 <= i < j < Count(p)
    ensures Address(p, at, i) < Address(p, at, j)
  {
    hide Sound, Fits, Address;
    GpasDiffer(p, b, i, j);
  }

  // ----- what its pointers hold -----

  function MovedValues(p: Parts, at: nat, i: nat): (r: seq<nat>)
    requires 1 <= i < Count(p)
    ensures |r| == if i == 1 then 1 + |p.leaves| else if i == 2 then 4 else 0
    ensures i == 1 ==> r[0] == Address(p, at, 2) && forall k :: 1 <= k < |r| ==> r[k] == Address(p, at, 3 + k)
    ensures i == 2 ==> r == [0, 0, 0, Address(p, at, 3)]
  {
    if i == 1 then
      [Address(p, at, 2)] + seq(|p.leaves|, k requires 0 <= k < |p.leaves| => Address(p, at, 4 + k))
    else if i == 2 then [0, 0, 0, Address(p, at, 3)]
    else []
  }

  lemma ValuesMove(p: Parts, b: u64, at: nat, i: nat, k: nat)
    requires Fits(p, b) && 1 <= i < Count(p) && k < |PointerValues(p, b, i)|
    ensures |MovedValues(p, at, i)| == |PointerValues(p, b, i)|
    ensures var v := PointerValues(p, b, i)[k];
            MovedValues(p, at, i)[k] == if v == 0 then 0 else v + at - Gpa(p, b, 1)
    ensures i == 1 ==> PointerValues(p, b, i)[k] > 0
    ensures i == 2 ==> (PointerValues(p, b, i)[k] > 0 <==> k == 3)
  {
    hide Total, Lens, Offset, BytesOf, MovedValues, Address;
    PositiveOffsets(p);
  }

  lemma SameCount(p: Parts, b: u64, at: nat, i: nat)
    requires Fits(p, b) && 1 <= i < Count(p)
    ensures |MovedValues(p, at, i)| == |PointerValues(p, b, i)|
  {
    hide Total, Gpa;
  }

  // ----- which addresses -----

  lemma AddressesFit(p: Parts, b: u64, at: nat, i: nat)
    requires Fits(p, b) && Sound(p) && 1 <= i < Count(p)
    ensures Address(p, at, i) <= Address(p, at, Count(p) - 1)
  {
    hide Fits, Sound, Address;
    if i < Count(p) - 1 {
      AddressesDiffer(p, b, at, i, Count(p) - 1);
    }
  }

  lemma MovedValuesFit(p: Parts, b: u64, at: nat, i: nat, k: nat)
    requires Fits(p, b) && Sound(p) && 1 <= i < Count(p) && k < |MovedValues(p, at, i)|
    ensures MovedValues(p, at, i)[k] <= Address(p, at, Count(p) - 1)
  {
    hide Fits, Sound, Address, MovedValues;
    if i == 1 {
      AddressesFit(p, b, at, if k == 0 then 2 else 3 + k);
    } else if i == 2 {
      AddressesFit(p, b, at, 3);
    }
  }

  /** Which field holds the address of the last table. */
  lemma LastIsHeld(p: Parts, at: nat)
    ensures if p.leaves == [] then MovedValues(p, at, 2)[3] == Address(p, at, Count(p) - 1)
            else MovedValues(p, at, 1)[|p.leaves|] == Address(p, at, Count(p) - 1)
  {
    hide Address, MovedValues;
  }

  lemma MovedValFits(p: Parts, b: u64, at: nat, i: nat, k: nat)
    requires Fits(p, b) && Sound(p) && Ordinary(p) && 1 <= i < Count(p) && k < |PointersIn(TableAt(p, b, i))|
    ensures k < |MovedValues(p, at, i)| && HEADER_LEN <= |BytesOf(p, b, i)|
    ensures var f := PointersIn(TableAt(p, b, i))[k];
            && f.at + f.size <= |BytesOf(p, b, i)|
            && MovedVal(Value(BytesOf(p, b, i), f), Gpa(p, b, 1), at) == MovedValues(p, at, i)[k]
            && (MovedValues(p, at, i)[k] != 0 ==> f.size == 8)
  {
    hide BytesOf, Total, Ordinary, Sound, FieldsOf, SignatureOf, Value, PointerValues, MovedValues, Address, Offset,
      Lens;
    TablesAreSdts(p, b, i);
    PointerValuesAre(p, b, i);
    ValuesMove(p, b, at, i, k);
    AtLeastFirst(p, b, i, k);
    if i == 1 {
      XsdtFieldsAre(p, b);
    } else if i == 2 {
      FadtValuesAre(p, b);
    } else {
      NoFields(p, b, i);
    }
  }

  lemma AtLeastFirst(p: Parts, b: u64, i: nat, k: nat)
    requires Fits(p, b) && Sound(p) && 1 <= i < Count(p) && k < |PointerValues(p, b, i)|
    ensures var v := PointerValues(p, b, i)[k]; v == 0 || Gpa(p, b, 1) <= v
  {
    hide Gpa, Fits, Sound;
    if i == 1 {
      GpasDiffer(p, b, 1, if k == 0 then 2 else 3 + k);
    } else if i == 2 {
      GpasDiffer(p, b, 1, 3);
    }
  }

  lemma TableFitsWhen(p: Parts, b: u64, at: nat, i: nat)
    requires Fits(p, b) && Sound(p) && Ordinary(p) && 1 <= i < Count(p) && Spaced(SdtsOf(p, b))
    ensures Address(p, at, Count(p) - 1) < U64 ==> TableFits(SdtsOf(p, b), i - 1, at)
    ensures TableFits(SdtsOf(p, b), i - 1, at) && i == (if p.leaves == [] then 2 else 1) ==>
              Address(p, at, Count(p) - 1) < U64
  {
    hide BytesOf, Gpa, Total, Ordinary, Sound, FieldsOf, SignatureOf, Value, MovedVal, MovedValues, Address, Spaced,
      Separate, Fits;
    var sdts := SdtsOf(p, b);
    assert sdts[i - 1] == TableAt(p, b, i) && sdts[0] == TableAt(p, b, 1);
    SpacedWhole(sdts, i - 1);
    var o, fs := BytesOf(p, b, i), PointersIn(TableAt(p, b, i));
    FieldsAreSeparate(sdts[i - 1].signature, |o|);
    Pow256Values();
    if Address(p, at, Count(p) - 1) < U64 {
      forall k | 0 <= k < |fs| ensures MovedVal(Value(o, fs[k]), Gpa(p, b, 1), at) < Pow256(fs[k].size) {
        MovedValFits(p, b, at, i, k);
        MovedValuesFit(p, b, at, i, k);
      }
    }
    if TableFits(sdts, i - 1, at) && i == (if p.leaves == [] then 2 else 1) {
      PointerValuesAre(p, b, i);
      SameCount(p, b, at, i);
      LastIsHeld(p, at);
      var k := if p.leaves == [] then 3 else |p.leaves|;
      MovedValFits(p, b, at, i, k);
    }
  }

  /** Every moved pointer fits exactly when the last table starts below 2^64. */
  lemma FitsWhen(p: Parts, b: u64, at: u64)
    requires Fits(p, b) && Sound(p) && Ordinary(p)
    ensures Linkable(SdtsOf(p, b), BytesOf(p, b, 0))
    ensures Representable(SdtsOf(p, b), BytesOf(p, b, 0), at) <==> Moves(p, b, at)
  {
    hide BytesOf, Gpa, Total, Ordinary, Sound, Spaced, AllResolved, Resolved, TableFits, Address, Accepts, Fits,
      RsdpFits;
    SetAccepted(p, b);
    var sdts := SdtsOf(p, b);
    forall i | 0 <= i < |sdts| ensures Address(p, at, Count(p) - 1) < U64 ==> TableFits(sdts, i, at) {
      TableFitsWhen(p, b, at, i + 1);
    }
    TableFitsWhen(p, b, at, if p.leaves == [] then 2 else 1);
    RsdpAlwaysFits(p, b, at);
  }

  lemma RsdpAlwaysFits(p: Parts, b: u64, at: u64)
    requires Fits(p, b) && Sound(p) && Ordinary(p) && Linkable(SdtsOf(p, b), BytesOf(p, b, 0))
    ensures RsdpFits(SdtsOf(p, b), BytesOf(p, b, 0), at)
  {
    hide BytesOf, Gpa, Total, Ordinary, Sound, Spaced, AllResolved, Resolved, Value;
    RsdpValuesAre(p, b);
    Pow256Values();
    assert SdtsOf(p, b)[0] == TableAt(p, b, 1);
  }

  // ----- the moved tables -----

  ghost function MovedTable(p: Parts, b: u64, at: u64, i: nat): (r: seq<byte>)
    requires Moves(p, b, at) && 1 <= i < Count(p)
  {
    hide BytesOf, Gpa, Total, Ordinary, Sound, Address;
    SetSpaced(p, b);
    SealedPart(SdtsOf(p, b), i - 1, at)
  }

  lemma MovedTableMoved(p: Parts, b: u64, at: u64, i: nat)
    requires Moves(p, b, at) && 1 <= i < Count(p)
    ensures Separate(PointersIn(TableAt(p, b, i)), |BytesOf(p, b, i)|)
    ensures TableMoved(BytesOf(p, b, i), MovedTable(p, b, at, i), PointersIn(TableAt(p, b, i)), Gpa(p, b, 1), at)
  {
    hide BytesOf, Gpa, Total, Ordinary, Sound, Spaced, AllResolved, Resolved, TableFits, RsdpFits, TableMoved,
      SealedPart, FieldsOf, Accepts, SignatureOf, Separate;
    var sdts := SdtsOf(p, b);
    FitsWhen(p, b, at);
    assert TableFits(sdts, i - 1, at);
    SealedPartMoved(sdts, i - 1, at);
    assert sdts[i - 1] == TableAt(p, b, i) && sdts[0] == TableAt(p, b, 1);
  }

  /** Only pointers and the checksum change, so a moved table is still a table. */
  lemma MovedTableIsSdt(p: Parts, b: u64, at: u64, i: nat)
    requires Moves(p, b, at) && 1 <= i < Count(p)
    ensures IsSdt(SignatureOf(p, i), MovedTable(p, b, at, i)) && |MovedTable(p, b, at, i)| == |BytesOf(p, b, i)|
  {
    hide BytesOf, Gpa, Total, Ordinary, Sound, MovedTable, FieldsOf, FieldsMoved, Moves, SignatureOf, ByteSum, Separate;
    MovedTableMoved(p, b, at, i);
    TablesAreSdts(p, b, i);
    var o, t := BytesOf(p, b, i), MovedTable(p, b, at, i);
    FieldsAreSeparate(SignatureOf(p, i), |o|);
    HeaderKept(o, t, PointersIn(TableAt(p, b, i)));
  }

  lemma HeaderKept(o: seq<byte>, t: seq<byte>, fs: seq<Field>)
    requires |t| == |o| && HEADER_LEN <= |o| && forall k :: 0 <= k < |fs| ==> HEADER_LEN <= fs[k].at
    requires forall j :: 0 <= j < |o| && j != CHECKSUM_OFFSET && !Covered(fs, j) ==> t[j] == o[j]
    ensures t[..4] == o[..4] && U32At(t, 4) == U32At(o, 4)
  {
    hide FromLE;
    assert forall j :: 0 <= j < 8 ==> !Covered(fs, j);
    assert t[..4] == o[..4] && t[4..8] == o[4..8];
  }

  lemma FileHolds(p: Parts, b: u64, at: u64, i: nat)
    requires Moves(p, b, at) && 1 <= i < Count(p)
    ensures var n := |SdtsOf(p, b)|;
            && Spaced(SdtsOf(p, b))
            && var file, off := TablesAt(SdtsOf(p, b), at, n, n), Address(p, at, i) - at;
            && off == Gpa(p, b, i) - Gpa(p, b, 1) && off + |BytesOf(p, b, i)| <= |file|
            && file[off..off + |BytesOf(p, b, i)|] == MovedTable(p, b, at, i)
  {
    hide BytesOf, Total, Ordinary, Sound, Spaced, AllResolved, Resolved, Representable, SealedPart, Blob, Accepts,
      SignatureOf, Offset, Lens, Placed;
    var sdts := SdtsOf(p, b);
    SetSpaced(p, b);
    BlobAt(PartsAt(sdts, at, |sdts|, |sdts|), Offs(sdts), i - 1);
    assert sdts[i - 1] == TableAt(p, b, i) && sdts[0] == TableAt(p, b, 1);
  }

  lemma MovedValuesAre(p: Parts, b: u64, at: u64, i: nat, k: nat)
    requires Moves(p, b, at) && 1 <= i < Count(p) && k < |PointersIn(TableAt(p, b, i))|
    ensures var t, f := MovedTable(p, b, at, i), PointersIn(TableAt(p, b, i))[k];
            && k < |MovedValues(p, at, i)| == |PointerValues(p, b, i)|
            && f.at + f.size <= |BytesOf(p, b, i)| == |t| && 0 < f.size < 256
            && Value(BytesOf(p, b, i), f) == PointerValues(p, b, i)[k] && Value(t, f) == MovedValues(p, at, i)[k]
  {
    hide BytesOf, Gpa, Total, Ordinary, Sound, MovedTable, FieldsOf, Moves, SignatureOf, ByteSum, Value, PointerValues,
      MovedValues, Separate;
    MovedTableMoved(p, b, at, i);
    PointerValuesAre(p, b, i);
    ValuesMove(p, b, at, i, k);
    FieldInside(PointersIn(TableAt(p, b, i)), |BytesOf(p, b, i)|, k);
  }

  lemma PointeesOfTable(p: Parts, b: u64, at: u64, rsdpBase: u64, i: nat)
    requires Moves(p, b, at) && 1 <= i < Count(p)
    ensures |PointerValues(p, b, i)| == |MovedValues(p, at, i)|
    ensures Pointees(TablePointers(SdtsOf(p, b), i - 1), Left(p, b, at, rsdpBase))
            == InTables(NonZero(PointerValues(p, b, i), MovedValues(p, at, i), |PointerValues(p, b, i)|))
  {
    hide BytesOf, Gpa, Total, Ordinary, Sound, Value, FieldsOf, Spaced, Pointees, Pointers, PointerValues, MovedValues,
      IsUtf8, TablesFile, RsdpFile, Both, Fits, SignatureOf, Separate, Moves, Address, MovedTable, SealedRsdp,
      TablesAt, AllResolved, Resolved;
    var sdts, m, n := SdtsOf(p, b), Left(p, b, at, rsdpBase), |SdtsOf(p, b)|;
    var file := TablesAt(sdts, at, n, n);
    BothLookup(rsdpBase, SealedRsdp(sdts, BytesOf(p, b, 0), at), at, file);
    assert sdts[i - 1] == TableAt(p, b, i) && sdts[0] == TableAt(p, b, 1);
    SameCount(p, b, at, i);
    FileHolds(p, b, at, i);
    PointerValuesAre(p, b, i);
    var fs, off := PointersIn(sdts[i - 1]), Offs(sdts)[i - 1];
    forall k | 0 <= k < |fs|
      ensures fs[k].at + fs[k].size <= |sdts[i - 1].bytes| && 0 < fs[k].size < 256
      ensures Value(m[TablesFile()].1, Shifted(fs[k], off)) == MovedValues(p, at, i)[k]
    {
      MovedValuesAre(p, b, at, i, k);
      ShiftedValue(file, off, off + |BytesOf(p, b, i)|, fs[k]);
    }
    PointeesOfFields(TablesFile(), sdts[i - 1].bytes, fs, off, |fs|, m, PointerValues(p, b, i), MovedValues(p, at, i));
  }

  lemma ShiftedValue(s: seq<byte>, lo: nat, hi: nat, f: Field)
    requires lo <= hi <= |s| && f.at + f.size <= hi - lo
    ensures Value(s, Shifted(f, lo)) == Value(s[lo..hi], f)
  {
    hide FromLE;
    SubSlice(s, lo, hi, f.at, f.at + f.size);
  }

  // ----- the targets -----

  lemma NonZeroXsdt(p: Parts, b: u64, at: nat, n: nat)
    requires Fits(p, b) && n <= |PointerValues(p, b, 1)| == |MovedValues(p, at, 1)|
    ensures NonZero(PointerValues(p, b, 1), MovedValues(p, at, 1), n) == MovedValues(p, at, 1)[..n]
  {
    hide PointerValues, MovedValues, Fits;
    if n > 0 {
      NonZeroXsdt(p, b, at, n - 1);
      ValuesMove(p, b, at, 1, n - 1);
    }
  }

  lemma NonZeroSecond(was: seq<nat>, now: seq<nat>)
    requires |was| == |now| == 2 && was[0] == 0 && was[1] > 0
    ensures NonZero(was, now, 2) == [now[1]]
  {
    assert NonZero(was, now, 1) == [];
  }

  lemma NonZeroFadt(was: seq<nat>, now: seq<nat>)
    requires |was| == |now| == 4 && was[0] == was[1] == was[2] == 0 && was[3] > 0
    ensures NonZero(was, now, 4) == [now[3]]
  {
    assert NonZero(was, now, 1) == [];
    assert NonZero(was, now, 2) == [];
    assert NonZero(was, now, 3) == [];
  }

  /** Targets of the first `k` tables' pointers: the XSDT lists, the FADT names the DSDT. */
  ghost function TargetsOf(p: Parts, at: nat, k: nat): (r: seq<nat>) {
    if k == 0 then [] else if k == 1 then MovedValues(p, at, 1) else MovedValues(p, at, 1) + [Address(p, at, 3)]
  }

  lemma TargetsStep(p: Parts, b: u64, at: nat, i: nat)
    requires Fits(p, b) && 1 <= i < Count(p)
    ensures |PointerValues(p, b, i)| == |MovedValues(p, at, i)|
    ensures TargetsOf(p, at, i - 1) + NonZero(PointerValues(p, b, i), MovedValues(p, at, i), |PointerValues(p, b, i)|)
            == TargetsOf(p, at, i)
  {
    hide PointerValues, MovedValues, Fits, Address;
    SameCount(p, b, at, i);
    if i == 1 {
      NonZeroXsdt(p, b, at, |PointerValues(p, b, 1)|);
    } else if i == 2 {
      ValuesMove(p, b, at, 2, 0);
      ValuesMove(p, b, at, 2, 1);
      ValuesMove(p, b, at, 2, 2);
      ValuesMove(p, b, at, 2, 3);
      NonZeroFadt(PointerValues(p, b, 2), MovedValues(p, at, 2));
    }
  }

  lemma InTablesAppend(a: seq<nat>, b: seq<nat>)
    ensures InTables(a + b) == InTables(a) + InTables(b)
  {
    hide TablesFile, IsUtf8;
  }

  lemma {:induction false} PointeesOfTables(p: Parts, b: u64, at: u64, rsdpBase: u64, k: nat)
    requires Moves(p, b, at) && k < Count(p)
    ensures Pointees(AllPointers(SdtsOf(p, b), k), Left(p, b, at, rsdpBase)) == InTables(TargetsOf(p, at, k))
  {
    hide BytesOf, Total, Ordinary, Sound, Spaced, AllResolved, Resolved, Pointees, PointerValues, MovedValues,
      TargetsOf, InTables, NonZero, Left, TablePointers, AllPointers, SdtsOf, Moves, Fits;
    var sdts, m := SdtsOf(p, b), Left(p, b, at, rsdpBase);
    if k == 0 {
      NoPointers(sdts, m);
      NoTargets(p, at);
    } else {
      PointeesOfTables(p, b, at, rsdpBase, k - 1);
      PointeesOfTable(p, b, at, rsdpBase, k);
      TargetsStep(p, b, at, k);
      PointeesStep(sdts, k, m);
      InTablesAppend(TargetsOf(p, at, k - 1),
        NonZero(PointerValues(p, b, k), MovedValues(p, at, k), |PointerValues(p, b, k)|));
    }
  }

  lemma NoPointers(sdts: seq<PlacedTable>, m: Memory)
    requires Spaced(sdts)
    ensures Pointees(AllPointers(sdts, 0), m) == []
  {
  }

  lemma PointeesStep(sdts: seq<PlacedTable>, k: nat, m: Memory)
    requires Spaced(sdts) && 0 < k <= |sdts|
    ensures Pointees(AllPointers(sdts, k), m)
            == Pointees(AllPointers(sdts, k - 1), m) + Pointees(TablePointers(sdts, k - 1), m)
  {
    hide Pointees, TablePointers, Spaced, PointersIn;
    PointeesAppend(AllPointers(sdts, k - 1), TablePointers(sdts, k - 1), m);
  }

  lemma NoTargets(p: Parts, at: nat)
    ensures InTables(TargetsOf(p, at, 0)) == []
  {
  }

  lemma PointeesOfRsdp(p: Parts, b: u64, at: u64, rsdpBase: u64)
    requires Moves(p, b, at)
    ensures Pointees(RsdpPointers(BytesOf(p, b, 0)), Left(p, b, at, rsdpBase)) == InTables([at])
  {
    hide BytesOf, Total, Ordinary, Sound, Spaced, AllResolved, Resolved, Pointees, Both, Fits, InTables, Value, IsUtf8,
      RsdpFile, TablesFile, Lens, Offset, Pointers, TablesFit, SealedRsdp, TablesAt, RsdpChecksumsOk;
    var sdts, rsdp, n := SdtsOf(p, b), BytesOf(p, b, 0), |SdtsOf(p, b)|;
    RsdpValuesAre(p, b);
    PositiveOffsets(p);
    FitsWhen(p, b, at);
    SealedRsdpMoved(sdts, rsdp, at);
    assert sdts[0] == TableAt(p, b, 1);
    var t := SealedRsdp(sdts, rsdp, at);
    BothLookup(rsdpBase, t, at, TablesAt(sdts, at, n, n));
    var was, now: seq<nat> := [0, Gpa(p, b, 1)], [0, at];
    assert Value(t, RSDP_FIELDS[0]) == 0 && Value(t, RSDP_FIELDS[1]) == at;
    assert forall k :: 0 <= k < 2 ==> Shifted(RSDP_FIELDS[k], 0) == RSDP_FIELDS[k];
    PointeesOfFields(RsdpFile(), rsdp, RSDP_FIELDS, 0, 2, Left(p, b, at, rsdpBase), was, now);
    assert was[1] == Gpa(p, b, 1) > 0;
    NonZeroSecond(was, now);
  }

  lemma NoPointees(c: LoaderCommand, d: LoaderCommand, m: Memory)
    requires !c.AddPointer? && !d.AddPointer?
    ensures Pointees([c, d], m) == []
  {
    assert [c, d][1..] == [d] && [d][1..] == [];
    assert PointeeOf(c, m) == [] && PointeeOf(d, m) == [] && Pointees([], m) == [];
    assert Pointees([d], m) == [];
  }

  lemma NoPointeesInSums(m: Memory)
    ensures Pointees(Allocates(), m) == [] && Pointees(RsdpSums(), m) == []
  {
    hide IsUtf8, TablesFile, RsdpFile, Pointees;
    NoPointees(Allocates()[0], Allocates()[1], m);
    NoPointees(RsdpSums()[0], RsdpSums()[1], m);
  }

  /** Everything the script points at. */
  ghost function AllTargets(p: Parts, at: nat): (r: seq<nat>) {
    MovedValues(p, at, 1) + [Address(p, at, 3)] + [at]
  }

  lemma ScriptPointees(p: Parts, b: u64, at: u64, rsdpBase: u64)
    requires Moves(p, b, at)
    ensures Pointees(Script(SdtsOf(p, b), BytesOf(p, b, 0)), Left(p, b, at, rsdpBase)) == InTables(AllTargets(p, at))
  {
    hide BytesOf, Total, Ordinary, Sound, Spaced, AllResolved, Resolved, Pointees, Fits, InTables, Left, AllPointers,
      AllSums, RsdpPointers, Allocates, RsdpSums, MovedValues, SdtsOf, Moves, Address;
    var sdts, m := SdtsOf(p, b), Left(p, b, at, rsdpBase);
    var n := |sdts|;
    PointeesOfTables(p, b, at, rsdpBase, n);
    PointeesOfSums(sdts, n, m);
    PointeesOfRsdp(p, b, at, rsdpBase);
    NoPointeesInSums(m);
    PointeesFive(Allocates(), AllPointers(sdts, n), AllSums(sdts, n), RsdpPointers(BytesOf(p, b, 0)), RsdpSums(), m);
    InTablesAppend(MovedValues(p, at, 1) + [Address(p, at, 3)], [at]);
  }

  lemma PointeesFive(a: seq<LoaderCommand>, b: seq<LoaderCommand>, c: seq<LoaderCommand>, d: seq<LoaderCommand>,
      e: seq<LoaderCommand>, m: Memory)
    requires Pointees(a, m) == [] && Pointees(c, m) == [] && Pointees(e, m) == []
    ensures Pointees(a + b + c + d + e, m) == Pointees(b, m) + Pointees(d, m)
  {
    hide Pointees;
    PointeesAppend(a + b + c + d, e, m);
    PointeesAppend(a + b + c, d, m);
    PointeesAppend(a + b, c, m);
    PointeesAppend(a, b, m);
  }

  // ----- what is installed -----

  /** The table each target names, as an index. */
  ghost function IndexOf(p: Parts, k: nat): (r: nat)
    requires k < 3 + |p.leaves|
    ensures 1 <= r < Count(p)
  {
    if k == 0 then 2 else if k <= |p.leaves| then 3 + k else if k == 1 + |p.leaves| then 3 else 1
  }

  lemma TargetIs(p: Parts, at: nat, k: nat)
    requires k < 3 + |p.leaves|
    ensures |AllTargets(p, at)| == 3 + |p.leaves| && AllTargets(p, at)[k] == Address(p, at, IndexOf(p, k))
  {
    hide Address, Lens;
    XsdtFirst(p, at);
  }

  lemma XsdtFirst(p: Parts, at: nat)
    ensures Address(p, at, 1) == at
  {
  }

  lemma TargetsDistinct(p: Parts, b: u64, at: nat)
    requires Fits(p, b) && Sound(p)
    ensures Distinct(InTables(AllTargets(p, at)), {})
  {
    hide Fits, Lens, Sound, AllTargets, TablesFile, IsUtf8, Address;
    var ts := AllTargets(p, at);
    TargetIs(p, at, 0);
    forall k, l | 0 <= k < l < |ts| ensures ts[k] != ts[l] {
      TargetIs(p, at, k);
      TargetIs(p, at, l);
      var i, j := IndexOf(p, k), IndexOf(p, l);
      if i < j {
        AddressesDiffer(p, b, at, i, j);
      } else {
        AddressesDiffer(p, b, at, j, i);
      }
    }
  }

  lemma HeaderOfSlice(rest: seq<byte>, t: seq<byte>)
    requires |t| >= 8 && |t| <= |rest| && rest[..|t|] == t
    ensures U32At(rest, 4) == U32At(t, 4)
  {
    hide FromLE;
    assert rest[4..8] == t[4..8];
  }

  lemma InstallsTable(p: Parts, b: u64, at: u64, rsdpBase: u64, i: nat)
    requires Moves(p, b, at) && 1 <= i < Count(p)
    ensures Installs(Address(p, at, i), TablesFile(), Left(p, b, at, rsdpBase))
            == if i == 1 then [] else [MovedTable(p, b, at, i)]
  {
    hide BytesOf, Gpa, Total, Sound, Both, Fits, IsUtf8, RsdpFile, TablesFile, Lens, U32At, ByteSum, Moves, MovedTable,
      Address, TablesAt, SealedRsdp, Spaced, AllResolved, Resolved;
    var sdts, n := SdtsOf(p, b), |SdtsOf(p, b)|;
    var m, t := Left(p, b, at, rsdpBase), MovedTable(p, b, at, i);
    var file := TablesAt(sdts, at, n, n);
    BothLookup(rsdpBase, SealedRsdp(sdts, BytesOf(p, b, 0), at), at, file);
    FileHolds(p, b, at, i);
    MovedTableIsSdt(p, b, at, i);
    var off := Address(p, at, i) - at;
    var rest := file[off..];
    assert rest[..|t|] == t;
    HeaderOfSlice(rest, t);
    assert SdtAt(Address(p, at, i), TablesFile(), m) == Some(t);
    NotRoots(p, i);
  }

  lemma NotRoots(p: Parts, i: nat)
    requires Ordinary(p) && 1 <= i < Count(p)
    ensures SignatureOf(p, i) in ROOT_TABLES <==> i == 1
  {
    hide Total;
    assert Dsdt.SIGNATURE !in ROOT_TABLES && Fadt.SIGNATURE !in ROOT_TABLES && Xsdt.SIGNATURE in ROOT_TABLES;
  }

  /** The first `n` of: the FADT, every leaf in order, the DSDT. */
  ghost function Delivered(p: Parts, b: u64, at: u64, n: nat): (r: seq<seq<byte>>)
    requires Moves(p, b, at) && n <= 2 + |p.leaves|
    ensures |r| == n
  {
    hide Moves, MovedTable;
    if n == 0 then [] else Delivered(p, b, at, n - 1) + [MovedTable(p, b, at, IndexOf(p, n - 1))]
  }

  lemma {:induction false} DeliveredAt(p: Parts, b: u64, at: u64, n: nat, k: nat)
    requires Moves(p, b, at) && k < n <= 2 + |p.leaves|
    ensures Delivered(p, b, at, n)[k] == MovedTable(p, b, at, IndexOf(p, k))
  {
    hide Moves, MovedTable, Spaced, Fits, Ordinary, Sound;
    if k < n - 1 {
      DeliveredAt(p, b, at, n - 1, k);
    }
  }

  lemma {:induction false} InstallAllTargets(p: Parts, b: u64, at: u64, rsdpBase: u64, n: nat)
    requires Moves(p, b, at) && n <= 2 + |p.leaves|
    ensures |AllTargets(p, at)| == 3 + |p.leaves|
    ensures InstallAll(InTables(AllTargets(p, at)[..n]), Left(p, b, at, rsdpBase))
            == Delivered(p, b, at, n)
  {
    hide BytesOf, Total, Sound, Ordinary, Fits, TablesFile, IsUtf8, Lens, AllTargets, InstallAll, Left, Installs,
      Moves, MovedTable, Address, Spaced, AllResolved, Resolved;
    TargetIs(p, at, 0);
    if n == 0 {
      InstallNone(Left(p, b, at, rsdpBase));
    } else {
      InstallAllTargets(p, b, at, rsdpBase, n - 1);
      var ts, m := AllTargets(p, at), Left(p, b, at, rsdpBase);
      TargetIs(p, at, n - 1);
      assert ts[..n] == ts[..n - 1] + [ts[n - 1]];
      InTablesAppend(ts[..n - 1], [ts[n - 1]]);
      InstallAllAppend(InTables(ts[..n - 1]), InTables([ts[n - 1]]), m);
      InstallsTable(p, b, at, rsdpBase, IndexOf(p, n - 1));
      InstallOne(Pointee(ts[n - 1], TablesFile()), m);
      assert InTables([ts[n - 1]]) == [Pointee(ts[n - 1], TablesFile())];
    }
  }

  lemma InstallNone(m: Memory)
    ensures InstallAll(InTables([]), m) == []
  {
  }

  lemma InstallOne(x: Pointee, m: Memory)
    ensures InstallAll([x], m) == Installs(x.address, x.file, m)
  {
    hide Installs;
    assert [x][1..] == [];
  }

  lemma InstallsEach(p: Parts, b: u64, at: u64, rsdpBase: u64)
    requires Moves(p, b, at)
    ensures Accepts(TableSet(p, b))
    ensures Installed(CompiledSet(TableSet(p, b)).commands, Left(p, b, at, rsdpBase), {})
              == Delivered(p, b, at, 2 + |p.leaves|)
  {
    hide BytesOf, Total, Sound, Ordinary, Fits, TablesFile, IsUtf8, Lens, AllTargets, InstallAll, Left, Installs,
      Installed, Pointees, Distinct, InTables, Accepts, Spaced, Script, Delivered, CompiledSet, SdtsOf, TableSet,
      Moves, MovedTable, Address, AllResolved, Resolved;
    ScriptIs(p, b);
    var cs, m := Script(SdtsOf(p, b), BytesOf(p, b, 0)), Left(p, b, at, rsdpBase);
    ScriptPointees(p, b, at, rsdpBase);
    TargetsDistinct(p, b, at);
    InstalledIsAll(cs, m, {});
    var n := 2 + |p.leaves|;
    var ts := AllTargets(p, at);
    InstallAllTargets(p, b, at, rsdpBase, n);
    LastTarget(p, at);
    InTablesAppend(ts[..n], [at]);
    InstallAllAppend(InTables(ts[..n]), InTables([at]), m);
    XsdtFirst(p, at);
    InstallsTable(p, b, at, rsdpBase, 1);
    InstallOne(Pointee(at, TablesFile()), m);
    assert InTables([at]) == [Pointee(at, TablesFile())];
  }

  lemma ScriptIs(p: Parts, b: u64)
    requires Fits(p, b) && Sound(p) && Ordinary(p)
    ensures Accepts(TableSet(p, b)) && Spaced(SdtsOf(p, b)) && |BytesOf(p, b, 0)| == RSDP_LEN
    ensures CompiledSet(TableSet(p, b)).commands == Script(SdtsOf(p, b), BytesOf(p, b, 0))
  {
    hide BytesOf, Gpa, Total, Sound, Ordinary, Accepts, SortByGpa, Sdts, Rsdps, Spaced, AllResolved, Resolved, Script,
      TableSet, SdtsOf, Blob;
    SetAccepted(p, b);
  }

  lemma LastTarget(p: Parts, at: nat)
    ensures |AllTargets(p, at)| == 3 + |p.leaves| && AllTargets(p, at) == AllTargets(p, at)[..2 + |p.leaves|] + [at]
  {
    hide Address, Lens;
  }
}
