/** A built table set is one the compiler accepts. */
module BuiltSets {
  import opened Bytes
  import opened Sdt
  import opened PointerFields
  import opened Layout
  import opened Loader
  import opened LoaderInput
  import opened Firmware
  import Fadt
  import Xsdt
  import Dsdt

  /** No leaf is a root table or an FADT, and the set fits the loader's 1 MiB. */
  ghost predicate Ordinary(p: Parts) {
    && (forall i :: 0 <= i < |p.leaves| ==>
         p.signatures[i] != Xsdt.SIGNATURE && p.signatures[i] != Fadt.SIGNATURE && p.signatures[i] !in ROOT_TABLES)
    && Total(p) <= MAX_TABLES_BYTES
  }

  ghost function SdtsOf(p: Parts, base: u64): (r: seq<PlacedTable>)
    requires Fits(p, base)
    ensures |r| == Count(p) - 1
    ensures forall i :: 0 <= i < |r| ==> r[i] == TableAt(p, base, i + 1)
  {
    TableSet(p, base)[1..]
  }

  // ----- filtering and sorting it -----

  lemma {:induction false} NoRsdps(ts: seq<PlacedTable>)
    requires forall i :: 0 <= i < |ts| ==> ts[i].signature != RSDP_SIGNATURE
    ensures Rsdps(ts) == [] && Sdts(ts) == ts
  {
    if ts != [] {
      NoRsdps(ts[1..]);
    }
  }

  lemma SetSplits(p: Parts, base: u64)
    requires Fits(p, base)
    ensures Rsdps(TableSet(p, base)) == [TableAt(p, base, 0)]
    ensures Sdts(TableSet(p, base)) == SdtsOf(p, base)
  {
    hide BytesOf, Gpa, Fits, Lens;
    var rest := TableSet(p, base)[1..];
    forall i | 0 <= i < |rest| ensures rest[i].signature != RSDP_SIGNATURE {
      assert |SignatureOf(p, i + 1)| == 4;
    }
    NoRsdps(rest);
  }

  lemma SetOrdered(p: Parts, base: u64)
    requires Fits(p, base)
    ensures var s := SdtsOf(p, base); forall i, j :: 0 <= i < j < |s| ==> s[i].gpa + |s[i].bytes| <= s[j].gpa
    ensures var s := SdtsOf(p, base); forall i :: 0 <= i < |s| ==>
              s[i].gpa + |s[i].bytes| <= base + Total(p) && base < s[i].gpa
  {
    hide BytesOf, Gpa, Total, Lens, Offset;
    InOrder(p, base);
    var s := SdtsOf(p, base);
    assert forall i :: 0 <= i < |s| ==> s[i].gpa == Gpa(p, base, i + 1) && s[i].bytes == BytesOf(p, base, i + 1);
    assert |BytesOf(p, base, 0)| == RSDP_LEN by { RsdpIs(p, base); }
  }

  lemma RsdpIs(p: Parts, base: u64)
    requires Fits(p, base)
    ensures BytesOf(p, base, 0) == Rsdp(Gpa(p, base, 1)) && |BytesOf(p, base, 0)| == RSDP_LEN
  {
  }

  lemma SetWhole(p: Parts, base: u64)
    requires Fits(p, base) && Sound(p)
    ensures var s := SdtsOf(p, base); forall i :: 0 <= i < |s| ==> HEADER_LEN <= |s[i].bytes|
  {
    hide BytesOf, Gpa, Lens, Sound;
    var s := SdtsOf(p, base);
    forall i | 0 <= i < |s| ensures HEADER_LEN <= |s[i].bytes| {
      TablesAreSdts(p, base, i + 1);
    }
  }

  lemma SetSpaced(p: Parts, base: u64)
    requires Fits(p, base) && Sound(p) && Ordinary(p)
    ensures Spaced(SdtsOf(p, base))
    ensures SortByGpa(SdtsOf(p, base)) == SdtsOf(p, base)
  {
    hide TableAt, Lens, Total, SortByGpa;
    var s := SdtsOf(p, base);
    SetOrdered(p, base);
    SetWhole(p, base);
    SortByGpaSorts(s);
    SortedUnique(s, SortByGpa(s));
  }

  // ----- its pointers -----

  lemma {:induction false} AllFit(fs: seq<Field>, len: nat)
    requires forall k :: 0 <= k < |fs| ==> fs[k].at + fs[k].size <= len
    ensures FittingFields(fs, len) == fs
  {
    if fs != [] {
      AllFit(fs[1..], len);
    }
  }

  lemma FadtFieldsAre()
    ensures FieldsOf(Fadt.SIGNATURE, Fadt.FADT_LEN) == FadtFields()
  {
    hide FittingFields;
    AllFit(FadtFields(), Fadt.FADT_LEN);
  }

  lemma NoFields(p: Parts, base: u64, i: nat)
    requires Fits(p, base) && Ordinary(p) && 3 <= i < Count(p)
    ensures PointersIn(TableAt(p, base, i)) == []
  {
    hide BytesOf, Gpa, Lens, Total;
  }

  /** The pointer values of table `i`: the XSDT's entries, the FADT's DSDT, none elsewhere. */
  ghost function PointerValues(p: Parts, base: u64, i: nat): (r: seq<nat>)
    requires Fits(p, base) && 1 <= i < Count(p)
  {
    if i == 1 then Listed(p, base) else if i == 2 then [0, 0, 0, Gpa(p, base, 3)] else []
  }

  lemma XsdtFieldsAre(p: Parts, base: u64)
    requires Fits(p, base)
    ensures var fs := PointersIn(TableAt(p, base, 1));
            |fs| == 1 + |p.leaves| && forall k :: 0 <= k < |fs| ==> fs[k] == Field(HEADER_LEN + 8 * k, 8)
  {
    hide BytesOf, Gpa, Total;
  }

  lemma XsdtValuesAre(p: Parts, base: u64)
    requires Fits(p, base)
    ensures var t := TableAt(p, base, 1);
            var fs := PointersIn(t);
            && |fs| == |Listed(p, base)|
            && forall k :: 0 <= k < |fs| ==>
                 fs[k].at + fs[k].size <= |t.bytes| && Value(t.bytes, fs[k]) == Listed(p, base)[k]
  {
    hide BytesOf, Gpa, Total, FromLE, Listed, FieldsOf;
    XsdtFieldsAre(p, base);
    PointersResolve(p, base);
    var t := TableAt(p, base, 1);
    var fs := PointersIn(t);
    forall k | 0 <= k < |fs| ensures fs[k].at + fs[k].size <= |t.bytes| && Value(t.bytes, fs[k]) == Listed(p, base)[k] {
      assert fs[k] == Field(HEADER_LEN + 8 * k, 8);
      assert Value(t.bytes, fs[k]) == U64At(t.bytes, HEADER_LEN + 8 * k);
    }
  }

  lemma FadtValuesAre(p: Parts, base: u64)
    requires Fits(p, base)
    ensures var t := TableAt(p, base, 2);
            var fs := PointersIn(t);
            && fs == FadtFields() && |t.bytes| == Fadt.FADT_LEN
            && Value(t.bytes, fs[0]) == 0 && Value(t.bytes, fs[1]) == 0 && Value(t.bytes, fs[2]) == 0
            && Value(t.bytes, fs[3]) == Gpa(p, base, 3)
  {
    hide Gpa, Total, FromLE, Fadt.Fadt, Fadt.Body, FieldsOf;
    FadtFieldsAre();
    Fadt.FadtFacts(Gpa(p, base, 3), p.conduit);
  }

  lemma PointerValuesAre(p: Parts, base: u64, i: nat)
    requires Fits(p, base) && Ordinary(p) && 1 <= i < Count(p)
    ensures var t := TableAt(p, base, i);
            var fs := PointersIn(t);
            && |fs| == |PointerValues(p, base, i)|
            && forall k :: 0 <= k < |fs| ==>
                 fs[k].at + fs[k].size <= |t.bytes| && Value(t.bytes, fs[k]) == PointerValues(p, base, i)[k]
  {
    hide BytesOf, Gpa, Total, Value, FieldsOf;
    if i == 1 {
      XsdtValuesAre(p, base);
    } else if i == 2 {
      FadtValuesAre(p, base);
    } else {
      NoFields(p, base, i);
    }
  }

  lemma GpaNamed(p: Parts, base: u64, i: nat)
    requires Fits(p, base) && 1 <= i < Count(p)
    ensures IsTarget(SdtsOf(p, base), Gpa(p, base, i))
  {
    hide BytesOf, Gpa, Total;
    assert SdtsOf(p, base)[i - 1].gpa == Gpa(p, base, i);
  }

  lemma PointerValuesNamed(p: Parts, base: u64, i: nat, k: nat)
    requires Fits(p, base) && 1 <= i < Count(p) && k < |PointerValues(p, base, i)|
    ensures var v := PointerValues(p, base, i)[k]; v == 0 || IsTarget(SdtsOf(p, base), v)
  {
    hide BytesOf, Gpa, Total, IsTarget;
    if i == 1 {
      GpaNamed(p, base, if k == 0 then 2 else 3 + k);
    } else if i == 2 {
      GpaNamed(p, base, 3);
    }
  }

  lemma SetResolved(p: Parts, base: u64)
    requires Fits(p, base) && Sound(p) && Ordinary(p)
    ensures Spaced(SdtsOf(p, base)) && AllResolved(SdtsOf(p, base))
  {
    hide BytesOf, Gpa, Total, Value, FieldsOf, IsTarget, Ordinary, Sound, PointerValues, Separate;
    var s := SdtsOf(p, base);
    SetSpaced(p, base);
    forall i | 0 <= i < |s|
      ensures Separate(PointersIn(s[i]), |s[i].bytes|) && Resolved(s, s[i].bytes, PointersIn(s[i]))
    {
      FieldsAreSeparate(s[i].signature, |s[i].bytes|);
      PointerValuesAre(p, base, i + 1);
      forall k | 0 <= k < |PointersIn(s[i])|
        ensures var v := Value(s[i].bytes, PointersIn(s[i])[k]); v == 0 || IsTarget(s, v)
      {
        PointerValuesNamed(p, base, i + 1, k);
      }
    }
  }

  lemma RsdpValuesAre(p: Parts, base: u64)
    requires Fits(p, base)
    ensures var b := BytesOf(p, base, 0);
            |b| == RSDP_LEN && Value(b, RSDP_FIELDS[0]) == 0 && Value(b, RSDP_FIELDS[1]) == Gpa(p, base, 1)
  {
    hide Gpa, Total, FromLE, Rsdp;
    RsdpFacts(Gpa(p, base, 1));
  }

  /** The compiler accepts every built set, and sees its SDTs in order. */
  lemma SetAccepted(p: Parts, base: u64)
    requires Fits(p, base) && Sound(p) && Ordinary(p)
    ensures Accepts(TableSet(p, base))
    ensures Rsdps(TableSet(p, base)) == [TableAt(p, base, 0)]
    ensures SortByGpa(Sdts(TableSet(p, base))) == SdtsOf(p, base)
    ensures Linkable(SdtsOf(p, base), BytesOf(p, base, 0))
  {
    hide BytesOf, Gpa, Total, Value, FieldsOf, IsTarget, Ordinary, Sound, Spaced, AllResolved, SortByGpa, Sdts, Rsdps,
      Accepts, Lens;
    SetSplits(p, base);
    SetSpaced(p, base);
    SetResolved(p, base);
    RsdpValuesAre(p, base);
    GpaNamed(p, base, 1);
    AcceptsIsLinkable(TableSet(p, base));
  }
}

/** Relocating a built set is building it somewhere else. */
module Rebuild {
  import opened Results
  import opened Bytes
  import opened Sdt
  import opened Blobs
  import opened PointerFields
  import opened LoaderCommands
  import opened Layout
  import opened Loader
  import opened LoaderInput
  import LoaderBuild
  import opened Firmware
  import opened Relocation
  import opened Moving
  import opened BuiltSets
  import Config
  import Fadt
  import Xsdt

  /** Tables with equal headers and equally long bodies differ in the header only in the checksum. */
  lemma SameHeader(h: SdtHeader, a: seq<byte>, b: seq<byte>, j: nat)
    requires |a| == |b| && HEADER_LEN + |a| < U32 && j < HEADER_LEN && j != CHECKSUM_OFFSET
    ensures Table(h, a).value[j] == Table(h, b).value[j]
  {
    hide EncodeHeader, Checksum;
  }

  lemma BodyByte(h: SdtHeader, a: seq<byte>, j: nat)
    requires HEADER_LEN + |a| < U32 && HEADER_LEN <= j < HEADER_LEN + |a|
    ensures Table(h, a).value[j] == a[j - HEADER_LEN]
  {
    hide EncodeHeader, Checksum;
  }

  lemma FadtBodyElsewhere(g: u64, g': u64, conduit: Config.PsciConduit, j: nat)
    requires j < 240 && !(104 <= j < 112)
    ensures Fadt.Body(g, conduit)[j] == Fadt.Body(g', conduit)[j]
  {
    hide LE;
  }

  lemma FadtElsewhere(g: u64, g': u64, conduit: Config.PsciConduit, j: nat)
    requires j < Fadt.FADT_LEN && j != CHECKSUM_OFFSET && !Covered(FadtFields(), j)
    ensures Fadt.Fadt(g, conduit).value[j] == Fadt.Fadt(g', conduit).value[j]
  {
    hide Fadt.Body, Table, NewHeader;
    assert !Covers(FadtFields()[3], j);
    if j < HEADER_LEN {
      SameHeader(NewHeader(Fadt.SIGNATURE, 6), Fadt.Body(g, conduit), Fadt.Body(g', conduit), j);
    } else {
      BodyByte(NewHeader(Fadt.SIGNATURE, 6), Fadt.Body(g, conduit), j);
      BodyByte(NewHeader(Fadt.SIGNATURE, 6), Fadt.Body(g', conduit), j);
      FadtBodyElsewhere(g, g', conduit, j - HEADER_LEN);
    }
  }

  lemma XsdtElsewhere(a: seq<u64>, b: seq<u64>, j: nat)
    requires |a| == |b| && HEADER_LEN + 8 * |a| < U32 && j < HEADER_LEN && j != CHECKSUM_OFFSET
    ensures Xsdt.Xsdt(a).value[j] == Xsdt.Xsdt(b).value[j]
  {
    hide Xsdt.Entries, Table, NewHeader;
    SameHeader(NewHeader(Xsdt.SIGNATURE, 1), Xsdt.Entries(a), Xsdt.Entries(b), j);
  }

  lemma XsdtCovered(p: Parts, base: u64, j: nat)
    requires Fits(p, base) && HEADER_LEN <= j < |BytesOf(p, base, 1)|
    ensures Covered(PointersIn(TableAt(p, base, 1)), j)
  {
    hide BytesOf, Gpa, Total, FieldsOf, Covers;
    XsdtFieldsAre(p, base);
    var k := (j - HEADER_LEN) / 8;
    CoversBlock(k, j);
    assert |BytesOf(p, base, 1)| == HEADER_LEN + 8 * (1 + |p.leaves|);
    assert PointersIn(TableAt(p, base, 1))[k] == Field(HEADER_LEN + 8 * k, 8);
  }

  lemma CoversBlock(k: nat, j: nat)
    requires HEADER_LEN <= j && k == (j - HEADER_LEN) / 8
    ensures Covers(Field(HEADER_LEN + 8 * k, 8), j)
  {
  }

  /** Outside its pointer fields and its checksum, no table depends on the base. */
  lemma ElsewhereSame(p: Parts, b: u64, c: u64, i: nat, j: nat)
    requires Fits(p, b) && Fits(p, c) && Ordinary(p) && 1 <= i < Count(p) && j < |BytesOf(p, b, i)|
    requires j != CHECKSUM_OFFSET && !Covered(PointersIn(TableAt(p, b, i)), j)
    ensures |BytesOf(p, c, i)| == |BytesOf(p, b, i)| && BytesOf(p, c, i)[j] == BytesOf(p, b, i)[j]
  {
    hide Gpa, Total, FieldsOf, Fadt.Fadt, Xsdt.Xsdt, Covered, Fits, Listed, Rsdp;
    if i == 1 {
      if j >= HEADER_LEN {
        XsdtCovered(p, b, j);
      } else {
        XsdtElsewhere(Listed(p, b), Listed(p, c), j);
      }
    } else if i == 2 {
      FadtValuesAre(p, b);
      FadtElsewhere(Gpa(p, b, 3), Gpa(p, c, 3), p.conduit, j);
    }
  }

  /** Pointer values at the two bases differ by the distance between the two tables files. */
  lemma ValuesShift(p: Parts, b: u64, c: u64, i: nat, k: nat)
    requires Fits(p, b) && Fits(p, c) && 1 <= i < Count(p) && k < |PointerValues(p, b, i)|
    ensures |PointerValues(p, c, i)| == |PointerValues(p, b, i)|
    ensures var v, w := PointerValues(p, b, i)[k], PointerValues(p, c, i)[k];
            w == if v == 0 then 0 else v + Gpa(p, c, 1) - Gpa(p, b, 1)
  {
    hide Total, Lens, Offset, BytesOf;
    PositiveOffsets(p);
  }

  lemma TablesMove(p: Parts, b: u64, c: u64, i: nat)
    requires Fits(p, b) && Fits(p, c) && Sound(p) && Ordinary(p) && 1 <= i < Count(p)
    ensures Separate(PointersIn(TableAt(p, b, i)), |BytesOf(p, b, i)|)
            && !Covered(PointersIn(TableAt(p, b, i)), CHECKSUM_OFFSET)
    ensures HEADER_LEN <= |BytesOf(p, b, i)|
    ensures TableMoved(BytesOf(p, b, i), BytesOf(p, c, i), PointersIn(TableAt(p, b, i)), Gpa(p, b, 1), Gpa(p, c, 1))
  {
    hide Gpa, Total, FieldsOf, Covered, Value, BytesOf, Ordinary, Sound, Separate, PointerValues, Fits, SignatureOf;
    TablesAreSdts(p, b, i);
    TablesAreSdts(p, c, i);
    var t, u := TableAt(p, b, i), TableAt(p, c, i);
    FieldsAreSeparate(t.signature, |t.bytes|);
    SameFields(p, b, c, i);
    PointerValuesAre(p, b, i);
    PointerValuesAre(p, c, i);
    var fs := PointersIn(t);
    forall k | 0 <= k < |fs|
      ensures Value(u.bytes, fs[k])
              == if Value(t.bytes, fs[k]) == 0 then 0 else Value(t.bytes, fs[k]) + Gpa(p, c, 1) - Gpa(p, b, 1)
    {
      ValuesShift(p, b, c, i, k);
    }
    forall j | 0 <= j < |t.bytes| && j != CHECKSUM_OFFSET && !Covered(fs, j) ensures u.bytes[j] == t.bytes[j] {
      ElsewhereSame(p, b, c, i, j);
    }
  }

  lemma SameFields(p: Parts, b: u64, c: u64, i: nat)
    requires Fits(p, b) && Fits(p, c) && 1 <= i < Count(p)
    ensures |BytesOf(p, b, i)| == |BytesOf(p, c, i)| && PointersIn(TableAt(p, b, i)) == PointersIn(TableAt(p, c, i))
  {
    hide BytesOf, Gpa, Total, FieldsOf;
  }

  lemma RsdpFieldsElsewhere(g: u64, g': u64, j: nat)
    requires j < RSDP_LEN && !(24 <= j < 32)
    ensures RsdpFields(g)[j] == RsdpFields(g')[j]
  {
    hide LE;
  }

  lemma RsdpByte(g: u64, j: nat)
    requires j < RSDP_LEN && j != RSDP_CHECKSUM_OFFSET && j != RSDP_EXT_CHECKSUM_OFFSET
    ensures Rsdp(g)[j] == RsdpFields(g)[j]
  {
    hide RsdpFields, Checksum;
  }

  lemma RsdpMoves(p: Parts, b: u64, c: u64)
    requires Fits(p, b) && Fits(p, c)
    ensures |BytesOf(p, b, 0)| == RSDP_LEN && RsdpMoved(BytesOf(p, b, 0), BytesOf(p, c, 0), Gpa(p, b, 1), Gpa(p, c, 1))
  {
    hide Total, Lens, Offset, Value, Rsdp, ByteSum, BytesOf;
    RsdpIs(p, b);
    RsdpIs(p, c);
    RsdpFacts(Gpa(p, c, 1));
    RsdpValuesAre(p, b);
    RsdpValuesAre(p, c);
    PositiveOffsets(p);
    var o, t := BytesOf(p, b, 0), BytesOf(p, c, 0);
    forall j | 0 <= j < RSDP_LEN && j != RSDP_CHECKSUM_OFFSET && j != RSDP_EXT_CHECKSUM_OFFSET
      && !Covered(RSDP_FIELDS, j)
      ensures t[j] == o[j]
    {
      assert !Covers(RSDP_FIELDS[1], j);
      RsdpByte(Gpa(p, b, 1), j);
      RsdpByte(Gpa(p, c, 1), j);
      RsdpFieldsElsewhere(Gpa(p, b, 1), Gpa(p, c, 1), j);
    }
  }

  // ----- the run -----

  /** The tables of a built set in one buffer: what memory holds from the XSDT on. */
  ghost function Image(p: Parts, base: u64): (r: seq<byte>)
    requires Fits(p, base) && Sound(p) && Ordinary(p)
  {
    SetSpaced(p, base);
    LikePlaced(SdtsOf(p, base), LoaderBuild.BytesOf(SdtsOf(p, base)));
    Blob(LoaderBuild.BytesOf(SdtsOf(p, base)), Offs(SdtsOf(p, base)))
  }

  lemma ValueInField(s: seq<byte>, f: Field)
    requires f.at + f.size <= |s|
    ensures Value(s, f) < Pow256(f.size)
  {
    LEOfFromLE(s[f.at..f.at + f.size]);
  }

  /** A moved copy exists, so every moved value fits. */
  lemma MovedFits(sdts: seq<PlacedTable>, o: seq<byte>, t: seq<byte>, fs: seq<Field>, base: nat)
    requires Spaced(sdts) && Separate(fs, |o|) && Resolved(sdts, o, fs) && |t| == |o|
             && FieldsMoved(o, t, fs, sdts[0].gpa, base)
    ensures FitFirst(o, fs, sdts[0].gpa, base, |fs|)
  {
    hide Value, Spaced, Resolved, MovedVal, Pow256;
    forall k | 0 <= k < |fs| ensures MovedVal(Value(o, fs[k]), sdts[0].gpa, base) < Pow256(fs[k].size) {
      MovedValIs(sdts, o, fs, base, k);
      ValueInField(t, fs[k]);
    }
  }

  lemma TableRebuilt(p: Parts, b: u64, c: u64, i: nat)
    requires Fits(p, b) && Fits(p, c) && Sound(p) && Ordinary(p) && 1 <= i < Count(p)
    ensures Spaced(SdtsOf(p, b)) && AllResolved(SdtsOf(p, b))
    ensures TableFits(SdtsOf(p, b), i - 1, Gpa(p, c, 1))
    ensures SealedPart(SdtsOf(p, b), i - 1, Gpa(p, c, 1)) == BytesOf(p, c, i)
  {
    hide Gpa, Total, FieldsOf, Covered, BytesOf, Ordinary, Sound, FieldsMoved, Resolved, AllResolved, Spaced, FitFirst,
      SealedPart, Separate, ByteSum, Part;
    var sdts, base := SdtsOf(p, b), Gpa(p, c, 1);
    SetResolved(p, b);
    TablesMove(p, b, c, i);
    PartValues(sdts, i - 1);
    var o, fs := sdts[i - 1].bytes, PointersIn(sdts[i - 1]);
    MovedFits(sdts, o, BytesOf(p, c, i), fs, base);
    SealedPartMoved(sdts, i - 1, base);
    MovedOnce(o, SealedPart(sdts, i - 1, base), BytesOf(p, c, i), fs, sdts[0].gpa, base);
  }

  lemma RsdpRebuilt(p: Parts, b: u64, c: u64)
    requires Fits(p, b) && Fits(p, c) && Sound(p) && Ordinary(p)
    ensures Linkable(SdtsOf(p, b), BytesOf(p, b, 0))
    ensures RsdpFits(SdtsOf(p, b), BytesOf(p, b, 0), Gpa(p, c, 1))
    ensures SealedRsdp(SdtsOf(p, b), BytesOf(p, b, 0), Gpa(p, c, 1)) == BytesOf(p, c, 0)
  {
    hide Gpa, Total, Covered, BytesOf, Ordinary, Sound, FieldsMoved, Resolved, AllResolved, Spaced, FitFirst,
      SealedRsdp, Accepts;
    var sdts, base := SdtsOf(p, b), Gpa(p, c, 1);
    SetAccepted(p, b);
    RsdpMoves(p, b, c);
    RsdpFieldsSeparate();
    var o := BytesOf(p, b, 0);
    MovedFits(sdts, o, BytesOf(p, c, 0), RSDP_FIELDS, base);
    SealedRsdpMoved(sdts, o, base);
    RsdpMovedOnce(o, SealedRsdp(sdts, o, base), BytesOf(p, c, 0), sdts[0].gpa, base);
  }

  lemma SameOffs(p: Parts, b: u64, c: u64)
    requires Fits(p, b) && Fits(p, c) && Sound(p) && Ordinary(p)
    ensures Spaced(SdtsOf(p, b)) && Spaced(SdtsOf(p, c)) && Offs(SdtsOf(p, b)) == Offs(SdtsOf(p, c))
  {
    hide BytesOf, Total, Lens, Offset, Spaced, Ordinary, Sound;
    SetSpaced(p, b);
    SetSpaced(p, c);
  }

  lemma TablesRebuilt(p: Parts, b: u64, c: u64)
    requires Fits(p, b) && Fits(p, c) && Sound(p) && Ordinary(p)
    ensures Spaced(SdtsOf(p, b)) && TablesFit(SdtsOf(p, b), Gpa(p, c, 1), |SdtsOf(p, b)|)
    ensures TablesAt(SdtsOf(p, b), Gpa(p, c, 1), |SdtsOf(p, b)|, |SdtsOf(p, b)|) == Image(p, c)
  {
    hide BytesOf, Gpa, Total, Spaced, Ordinary, Sound, TableFits, SealedPart, Blob, TableAt, MovedPart, Part;
    SameOffs(p, b, c);
    var sdts, base := SdtsOf(p, b), Gpa(p, c, 1);
    var parts := PartsAt(sdts, base, |sdts|, |sdts|);
    forall i | 0 <= i < |sdts| ensures TableFits(sdts, i, base) && parts[i] == LoaderBuild.BytesOf(SdtsOf(p, c))[i] {
      TableRebuilt(p, b, c, i + 1);
      SdtBytes(p, c, i);
    }
    assert parts == LoaderBuild.BytesOf(SdtsOf(p, c));
  }

  lemma SdtBytes(p: Parts, c: u64, i: nat)
    requires Fits(p, c) && i < Count(p) - 1
    ensures LoaderBuild.BytesOf(SdtsOf(p, c))[i] == BytesOf(p, c, i + 1)
  {
    hide BytesOf, Gpa, Total;
  }

  /** The script compiled at `b`, run with the tables file where `c` puts the XSDT, leaves the tables built at `c`. */
  lemma RunRebuilds(p: Parts, b: u64, c: u64, rsdpBase: u64)
    requires Fits(p, b) && Fits(p, c) && Sound(p) && Ordinary(p)
    ensures Accepts(TableSet(p, b))
    ensures var blobs := CompiledSet(TableSet(p, b));
            Exec(blobs.commands, PlatformFor(blobs, rsdpBase, Gpa(p, c, 1)), map[])
            == Some(Both(rsdpBase, BytesOf(p, c, 0), Gpa(p, c, 1), Image(p, c)))
  {
    hide BytesOf, Gpa, Total, Ordinary, Sound, Spaced, AllResolved, Resolved, Accepts, Exec, Compiled, PlatformFor,
      TablesFit, RsdpFits, SealedRsdp, TablesAt, Image, Both, SortByGpa, Sdts, Rsdps, TableSet;
    SetAccepted(p, b);
    RsdpRebuilt(p, b, c);
    TablesRebuilt(p, b, c);
    ScriptRelocates(SdtsOf(p, b), BytesOf(p, b, 0), rsdpBase, Gpa(p, c, 1));
  }

  /** Table `i` of sorted tables, in the buffer that holds them all. */
  lemma InOneBuffer(sdts: seq<PlacedTable>, i: nat)
    requires Spaced(sdts) && i < |sdts|
    ensures Placed(LoaderBuild.BytesOf(sdts), Offs(sdts))
    ensures var at, whole := sdts[i].gpa - sdts[0].gpa, Blob(LoaderBuild.BytesOf(sdts), Offs(sdts));
            0 <= at && at + |sdts[i].bytes| <= |whole| && whole[at..at + |sdts[i].bytes|] == sdts[i].bytes
  {
    hide Blob, Spaced;
    LikePlaced(sdts, LoaderBuild.BytesOf(sdts));
    BlobAt(LoaderBuild.BytesOf(sdts), Offs(sdts), i);
  }

  /** The memory such a run leaves: the tables built at `c`. */
  ghost function Rebuilt(p: Parts, c: u64, rsdpBase: u64): (m: Memory)
    requires Fits(p, c) && Sound(p) && Ordinary(p)
  {
    Both(rsdpBase, BytesOf(p, c, 0), Gpa(p, c, 1), Image(p, c))
  }

  lemma ImageIs(p: Parts, c: u64)
    requires Fits(p, c) && Sound(p) && Ordinary(p)
    ensures Spaced(SdtsOf(p, c)) && Placed(LoaderBuild.BytesOf(SdtsOf(p, c)), Offs(SdtsOf(p, c)))
    ensures Image(p, c) == Blob(LoaderBuild.BytesOf(SdtsOf(p, c)), Offs(SdtsOf(p, c)))
  {
    hide Spaced, Ordinary, Sound, Blob, SdtsOf, Fits;
    SetSpaced(p, c);
    LikePlaced(SdtsOf(p, c), LoaderBuild.BytesOf(SdtsOf(p, c)));
  }

  lemma ImageHolds(p: Parts, c: u64, i: nat)
    requires Fits(p, c) && Sound(p) && Ordinary(p) && 1 <= i < Count(p)
    ensures var at := Gpa(p, c, i) - Gpa(p, c, 1);
            0 <= at && at + |BytesOf(p, c, i)| <= |Image(p, c)|
            && Image(p, c)[at..at + |BytesOf(p, c, i)|] == BytesOf(p, c, i)
  {
    hide BytesOf, Gpa, Fits, Spaced, Ordinary, Sound, Blob, Offs, Placed, LoaderBuild.BytesOf, Lens, SdtsOf, Image,
      SignatureOf;
    ImageIs(p, c);
    var sdts := SdtsOf(p, c);
    InOneBuffer(sdts, i - 1);
    assert sdts[i - 1] == TableAt(p, c, i) && sdts[0] == TableAt(p, c, 1);
  }
}
