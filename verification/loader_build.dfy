/** Which table sets the compiler accepts, in terms of the set alone. */
module LoaderInput {
  import opened Bytes
  import opened Sdt
  import opened PointerFields
  import opened Layout
  import opened Loader

  function Rsdps(ts: seq<PlacedTable>): (r: seq<PlacedTable>)
    ensures forall t :: t in r <==> t in ts && t.signature == RSDP_SIGNATURE
  {
    if ts == [] then [] else (if ts[0].signature == RSDP_SIGNATURE then [ts[0]] else []) + Rsdps(ts[1..])
  }

  function Sdts(ts: seq<PlacedTable>): (r: seq<PlacedTable>)
    ensures forall t :: t in r <==> t in ts && t.signature != RSDP_SIGNATURE
  {
    if ts == [] then [] else (if ts[0].signature != RSDP_SIGNATURE then [ts[0]] else []) + Sdts(ts[1..])
  }

  // ----- sorting -----

  ghost predicate Sorted(s: seq<PlacedTable>) {
    forall i, j :: 0 <= i < j < |s| ==> s[i].gpa <= s[j].gpa
  }

  function Insert(t: PlacedTable, s: seq<PlacedTable>): (r: seq<PlacedTable>)
    ensures |r| == |s| + 1
    ensures forall x :: x in r <==> x == t || x in s
    ensures multiset(r) == multiset(s) + multiset{t}
  {
    if s == [] || t.gpa <= s[0].gpa then [t] + s
    else
      assert s == [s[0]] + s[1..];
      [s[0]] + Insert(t, s[1..])
  }

  /** A stable sort by address. */
  function SortByGpa(s: seq<PlacedTable>): (r: seq<PlacedTable>)
    ensures |r| == |s|
    ensures forall x :: x in r <==> x in s
    ensures multiset(r) == multiset(s)
  {
    if s == [] then []
    else
      assert s == [s[0]] + s[1..];
      Insert(s[0], SortByGpa(s[1..]))
  }

  lemma {:induction false} InsertSorted(t: PlacedTable, s: seq<PlacedTable>)
    requires Sorted(s)
    ensures Sorted(Insert(t, s))
  {
    if s != [] && s[0].gpa < t.gpa {
      InsertSorted(t, s[1..]);
      forall x | x in Insert(t, s[1..]) ensures s[0].gpa <= x.gpa {
        if x != t {
          assert x in s[1..];
        }
      }
      var r := Insert(t, s);
      assert forall j :: 0 < j < |r| ==> r[j] in Insert(t, s[1..]);
    }
  }

  lemma {:induction false} SortByGpaSorts(s: seq<PlacedTable>)
    ensures Sorted(SortByGpa(s))
  {
    if s != [] {
      SortByGpaSorts(s[1..]);
      InsertSorted(s[0], SortByGpa(s[1..]));
    }
  }

  // ----- disjointness -----

  ghost predicate Apart(a: PlacedTable, b: PlacedTable) {
    a.gpa + |a.bytes| <= b.gpa || b.gpa + |b.bytes| <= a.gpa
  }

  ghost predicate Disjoint(s: seq<PlacedTable>) {
    forall i, j :: 0 <= i < j < |s| ==> Apart(s[i], s[j])
  }

  ghost predicate AllApart(t: PlacedTable, s: seq<PlacedTable>) {
    forall x :: x in s ==> Apart(t, x)
  }

  lemma DisjointCons(t: PlacedTable, s: seq<PlacedTable>)
    ensures Disjoint([t] + s) <==> AllApart(t, s) && Disjoint(s)
  {
    hide Apart;
    var r := [t] + s;
    if Disjoint(r) {
      forall x | x in s ensures Apart(t, x) {
        var i :| 0 <= i < |s| && s[i] == x;
        assert Apart(r[0], r[i + 1]);
      }
      forall i, j | 0 <= i < j < |s| ensures Apart(s[i], s[j]) {
        assert Apart(r[i + 1], r[j + 1]);
      }
    }
    if AllApart(t, s) && Disjoint(s) {
      forall i, j | 0 <= i < j < |r| ensures Apart(r[i], r[j]) {
        if i == 0 {
          assert r[j] in s;
        } else {
          assert Apart(s[i - 1], s[j - 1]);
        }
      }
    }
  }

  lemma AllApartWith(a: PlacedTable, t: PlacedTable, s: seq<PlacedTable>, r: seq<PlacedTable>)
    requires forall x :: x in r <==> x == t || x in s
    ensures AllApart(a, r) <==> Apart(a, t) && AllApart(a, s)
  {
    hide Apart;
  }

  lemma {:induction false} InsertDisjoint(t: PlacedTable, s: seq<PlacedTable>)
    ensures Disjoint(Insert(t, s)) <==> Disjoint([t] + s)
  {
    hide Disjoint, AllApart;
    DisjointCons(t, s);
    if s != [] && s[0].gpa < t.gpa {
      var rest := s[1..];
      InsertDisjoint(t, rest);
      DisjointCons(t, rest);
      DisjointCons(s[0], Insert(t, rest));
      DisjointCons(s[0], rest);
      assert s == [s[0]] + rest;
      AllApartWith(s[0], t, rest, Insert(t, rest));
      AllApartWith(t, s[0], rest, s);
    }
  }

  lemma {:induction false} SortDisjoint(s: seq<PlacedTable>)
    ensures Disjoint(SortByGpa(s)) <==> Disjoint(s)
  {
    hide Disjoint, Insert, Apart;
    if s != [] {
      var rest := SortByGpa(s[1..]);
      SortDisjoint(s[1..]);
      InsertDisjoint(s[0], rest);
      DisjointCons(s[0], rest);
      DisjointCons(s[0], s[1..]);
      assert s == [s[0]] + s[1..];
    }
  }

  // ----- acceptance -----

  /** Whole tables, disjoint, and all ending within 1 MiB of the lowest. */
  ghost predicate WellSpaced(s: seq<PlacedTable>) {
    && s != []
    && (forall t :: t in s ==> HEADER_LEN <= |t.bytes|)
    && Disjoint(s)
    && (forall t, u :: t in s && u in s ==> t.gpa + |t.bytes| <= u.gpa + MAX_TABLES_BYTES)
  }

  ghost predicate AllNamed(s: seq<PlacedTable>, bytes: seq<byte>, fs: seq<Field>)
    requires Separate(fs, |bytes|)
  {
    forall k :: 0 <= k < |fs| ==> Value(bytes, fs[k]) == 0 || exists t :: t in s && t.gpa == Value(bytes, fs[k])
  }

  /**
    One 36-byte RSDP, at least one other table, each whole, all disjoint and
    ending within 1 MiB of the lowest, and every non-zero pointer field naming
    the start of a table.
   */
  ghost predicate Accepts(ts: seq<PlacedTable>) {
    var s := Sdts(ts);
    && |Rsdps(ts)| == 1 && |Rsdps(ts)[0].bytes| == RSDP_LEN
    && WellSpaced(s)
    && (forall t :: t in s ==> (FieldsAreSeparate(t.signature, |t.bytes|); AllNamed(s, t.bytes, PointersIn(t))))
    && AllNamed(s, Rsdps(ts)[0].bytes, RSDP_FIELDS)
  }

  lemma WellSpacedSorted(s: seq<PlacedTable>)
    ensures Spaced(SortByGpa(s)) <==> WellSpaced(s)
  {
    hide SortByGpa, Disjoint;
    var r := SortByGpa(s);
    SortByGpaSorts(s);
    SortDisjoint(s);
    if WellSpaced(s) {
      forall i | 0 <= i < |r|
        ensures HEADER_LEN <= |r[i].bytes| && r[i].gpa + |r[i].bytes| <= r[0].gpa + MAX_TABLES_BYTES
      {
        assert r[i] in s && r[0] in s;
      }
      SortedDisjoint(r);
    }
    if Spaced(r) {
      SpacedDisjoint(r);
      forall t | t in s ensures HEADER_LEN <= |t.bytes| {
        assert t in r;
        var i :| 0 <= i < |r| && r[i] == t;
      }
      forall t, u | t in s && u in s ensures t.gpa + |t.bytes| <= u.gpa + MAX_TABLES_BYTES {
        assert t in r && u in r;
        var i :| 0 <= i < |r| && r[i] == t;
        var j :| 0 <= j < |r| && r[j] == u;
      }
    }
  }

  lemma SortedDisjoint(r: seq<PlacedTable>)
    requires Sorted(r) && Disjoint(r) && forall i :: 0 <= i < |r| ==> HEADER_LEN <= |r[i].bytes|
    ensures forall i, j :: 0 <= i < j < |r| ==> r[i].gpa + |r[i].bytes| <= r[j].gpa
  {
    forall i, j | 0 <= i < j < |r| ensures r[i].gpa + |r[i].bytes| <= r[j].gpa {
      assert Apart(r[i], r[j]) && r[i].gpa <= r[j].gpa;
    }
  }

  lemma SpacedDisjoint(r: seq<PlacedTable>)
    requires Spaced(r)
    ensures Disjoint(r)
  {
  }

  lemma NamedIsResolved(s: seq<PlacedTable>, r: seq<PlacedTable>, bytes: seq<byte>, fs: seq<Field>)
    requires Separate(fs, |bytes|) && forall x :: x in r <==> x in s
    ensures Resolved(r, bytes, fs) <==> AllNamed(s, bytes, fs)
  {
    hide Value;
    forall v ensures IsTarget(r, v) <==> exists t :: t in s && t.gpa == v {
      if t :| t in s && t.gpa == v {
        assert t in r;
        var i :| 0 <= i < |r| && r[i] == t;
      }
      if i :| 0 <= i < |r| && r[i].gpa == v {
        assert r[i] in s;
      }
    }
  }

  /** Acceptance of the set is linkability of its sorted SDTs. */
  lemma AcceptsIsLinkable(ts: seq<PlacedTable>)
    ensures Accepts(ts) <==> |Rsdps(ts)| == 1 && Linkable(SortByGpa(Sdts(ts)), Rsdps(ts)[0].bytes)
  {
    hide SortByGpa, WellSpaced, Spaced, FieldsOf, AllNamed, Resolved, Separate, Sdts, Rsdps;
    var s := Sdts(ts);
    var r := SortByGpa(s);
    WellSpacedSorted(s);
    if |Rsdps(ts)| == 1 && |Rsdps(ts)[0].bytes| == RSDP_LEN && WellSpaced(s) {
      LongEnough(s, r);
      RsdpFieldsSeparate();
      NamedIsResolved(s, r, Rsdps(ts)[0].bytes, RSDP_FIELDS);
      forall t | t in s
        ensures Separate(PointersIn(t), |t.bytes|)
        ensures Resolved(r, t.bytes, PointersIn(t)) <==> AllNamed(s, t.bytes, PointersIn(t))
      {
        FieldsAreSeparate(t.signature, |t.bytes|);
        NamedIsResolved(s, r, t.bytes, PointersIn(t));
      }
      assert forall i :: 0 <= i < |r| ==> r[i] in s;
    }
  }

  lemma LongEnough(s: seq<PlacedTable>, r: seq<PlacedTable>)
    requires WellSpaced(s) && forall x :: x in r <==> x in s
    ensures forall t :: t in s ==> HEADER_LEN <= |t.bytes|
    ensures forall i :: 0 <= i < |r| ==> HEADER_LEN <= |r[i].bytes|
  {
  }

  // ----- order independence -----

  lemma {:induction false} SdtsMultiset(ts: seq<PlacedTable>, x: PlacedTable)
    ensures multiset(Sdts(ts))[x] == if x.signature == RSDP_SIGNATURE then 0 else multiset(ts)[x]
    ensures multiset(Rsdps(ts))[x] == if x.signature == RSDP_SIGNATURE then multiset(ts)[x] else 0
  {
    if ts != [] {
      SdtsMultiset(ts[1..], x);
      assert ts == [ts[0]] + ts[1..];
    }
  }

  /** Sorted sequences of the same tables are equal when the addresses are distinct. */
  lemma {:induction false} SortedUnique(a: seq<PlacedTable>, b: seq<PlacedTable>)
    requires Sorted(a) && Sorted(b) && multiset(a) == multiset(b)
    requires forall i, j :: 0 <= i < j < |a| ==> a[i].gpa < a[j].gpa
    ensures a == b
  {
    hide Sorted;
    if a == [] {
      assert |multiset(b)| == 0;
    } else {
      SameHead(a, b);
      TailOf(a);
      TailOf(b);
      assert forall i, j :: 0 <= i < j < |a[1..]| ==> a[1..][i].gpa < a[1..][j].gpa;
      SortedUnique(a[1..], b[1..]);
    }
  }

  lemma TailOf(a: seq<PlacedTable>)
    requires a != [] && Sorted(a)
    ensures a == [a[0]] + a[1..] && Sorted(a[1..]) && multiset(a[1..]) == multiset(a) - multiset{a[0]}
  {
    assert a == [a[0]] + a[1..];
    assert multiset(a) == multiset{a[0]} + multiset(a[1..]);
  }

  lemma SameHead(a: seq<PlacedTable>, b: seq<PlacedTable>)
    requires a != [] && Sorted(a) && Sorted(b) && multiset(a) == multiset(b)
    requires forall i, j :: 0 <= i < j < |a| ==> a[i].gpa < a[j].gpa
    ensures b != [] && a[0] == b[0]
  {
    assert a[0] in multiset(b);
    var j :| 0 <= j < |b| && b[j] == a[0];
    assert b[0] in multiset(a);
    var i :| 0 <= i < |a| && a[i] == b[0];
    assert b[0].gpa <= b[j].gpa;
  }

  lemma SameMultisets(ts: seq<PlacedTable>, us: seq<PlacedTable>)
    requires multiset(ts) == multiset(us)
    ensures multiset(Sdts(ts)) == multiset(Sdts(us)) && multiset(Rsdps(ts)) == multiset(Rsdps(us))
  {
    hide Sdts, Rsdps;
    forall x
      ensures multiset(Sdts(ts))[x] == multiset(Sdts(us))[x] && multiset(Rsdps(ts))[x] == multiset(Rsdps(us))[x]
    {
      SdtsMultiset(ts, x);
      SdtsMultiset(us, x);
    }
  }

  lemma SameSingle(a: seq<PlacedTable>, b: seq<PlacedTable>)
    requires multiset(a) == multiset(b) && |a| == 1
    ensures a == b
  {
    assert |b| == |multiset(b)| == 1;
    assert b[0] in multiset(a);
  }

  lemma SameSorted(s: seq<PlacedTable>, u: seq<PlacedTable>)
    requires multiset(s) == multiset(u) && WellSpaced(s)
    ensures SortByGpa(s) == SortByGpa(u)
  {
    hide SortByGpa, Disjoint;
    var a := SortByGpa(s);
    SortByGpaSorts(s);
    SortByGpaSorts(u);
    WellSpacedSorted(s);
    assert forall i, j :: 0 <= i < j < |a| ==> a[i].gpa < a[j].gpa;
    SortedUnique(a, SortByGpa(u));
  }

  /** The same tables in another order give the same sorted SDTs and the same RSDP. */
  lemma SameTablesSameInput(ts: seq<PlacedTable>, us: seq<PlacedTable>)
    requires multiset(ts) == multiset(us) && Accepts(ts)
    ensures Rsdps(us) == Rsdps(ts) && SortByGpa(Sdts(us)) == SortByGpa(Sdts(ts))
  {
    hide SortByGpa, Sdts, Rsdps, AllNamed, WellSpaced, PointersIn;
    SameMultisets(ts, us);
    SameSingle(Rsdps(ts), Rsdps(us));
    SameSorted(Sdts(ts), Sdts(us));
  }

  /** The SDTs and the RSDP of an accepted set, and what they compile to. */
  ghost function CompiledSet(ts: seq<PlacedTable>): (r: LoaderBlobs)
    requires Accepts(ts)
  {
    AcceptsIsLinkable(ts);
    Compiled(SortByGpa(Sdts(ts)), Rsdps(ts)[0].bytes)
  }

  /** Acceptance and the result do not depend on the order of the tables. */
  lemma OrderIndependent(ts: seq<PlacedTable>, us: seq<PlacedTable>)
    requires multiset(ts) == multiset(us)
    ensures Accepts(ts) <==> Accepts(us)
    ensures Accepts(ts) ==> CompiledSet(ts) == CompiledSet(us)
  {
    hide SortByGpa, Sdts, Rsdps, Accepts, Compiled, Linkable;
    AcceptsIsLinkable(ts);
    AcceptsIsLinkable(us);
    if Accepts(ts) {
      SameTablesSameInput(ts, us);
    } else if Accepts(us) {
      SameTablesSameInput(us, ts);
    }
  }
}

/** `LoaderBlobs::build`: the loops that place, patch and script the tables. */
module LoaderBuild {
  import opened Results
  import opened AcpiErrors
  import opened Bytes
  import opened Sdt
  import opened Blobs
  import opened PointerFields
  import opened LoaderCommands
  import opened Layout
  import opened Loader
  import opened LoaderInput
  import opened Relocation

  ghost function BytesOf(sdts: seq<PlacedTable>): (r: seq<seq<byte>>)
    ensures |r| == |sdts|
    ensures forall i :: 0 <= i < |r| ==> r[i] == sdts[i].bytes
  {
    seq(|sdts|, i requires 0 <= i < |sdts| => sdts[i].bytes)
  }

  // ----- placing -----

  /** Adding one more table keeps the prefix spaced exactly when it passes the loop's checks. */
  lemma SpacedStep(sdts: seq<PlacedTable>, n: nat)
    requires Sorted(sdts) && n < |sdts| && (n == 0 || Spaced(sdts[..n]))
    ensures var t := sdts[n];
            Spaced(sdts[..n + 1]) <==>
              && HEADER_LEN <= |t.bytes|
              && (n == 0 || sdts[n - 1].gpa + |sdts[n - 1].bytes| <= t.gpa)
              && t.gpa - sdts[0].gpa + |t.bytes| <= MAX_TABLES_BYTES
  {
    var t, s, s' := sdts[n], sdts[..n], sdts[..n + 1];
    assert s'[0] == sdts[0];
    if Spaced(s') {
      assert s'[n] == t;
      if n > 0 {
        assert s'[n - 1] == sdts[n - 1];
      }
    }
    if && HEADER_LEN <= |t.bytes| && (n == 0 || sdts[n - 1].gpa + |sdts[n - 1].bytes| <= t.gpa)
       && t.gpa - sdts[0].gpa + |t.bytes| <= MAX_TABLES_BYTES {
      forall i | 0 <= i < |s'|
        ensures HEADER_LEN <= |s'[i].bytes| && s'[i].gpa + |s'[i].bytes| <= s'[0].gpa + MAX_TABLES_BYTES
      {
        if i < n {
          assert s'[i] == s[i] && s[0] == s'[0];
        }
      }
      forall i, j | 0 <= i < j < |s'| ensures s'[i].gpa + |s'[i].bytes| <= s'[j].gpa {
        assert s'[i] == s[i];
        if j < n {
          assert s'[j] == s[j];
        } else if i < n - 1 {
          assert s[i].gpa + |s[i].bytes| <= s[n - 1].gpa;
        }
      }
    }
  }

  lemma SpacedPrefixOf(sdts: seq<PlacedTable>, n: nat)
    requires Spaced(sdts) && 0 < n <= |sdts|
    ensures Spaced(sdts[..n])
  {
  }

  /** The tables in one buffer, each at its offset from the lowest. */
  method Place(sdts: seq<PlacedTable>) returns (r: Result<(seq<byte>, seq<nat>), AcpiError>)
    requires sdts != [] && Sorted(sdts)
    ensures r.Ok? <==> Spaced(sdts)
    ensures r.Err? ==> r == Err(BadTable)
    ensures r.Ok? ==>
              r.value.1 == Offs(sdts) && Placed(BytesOf(sdts), Offs(sdts))
              && r.value.0 == Blob(BytesOf(sdts), Offs(sdts))
  {
    hide BlobOfFirst, Extend, Spaced, Placed;
    var start := sdts[0].gpa;
    var blob: seq<byte>, offsets: seq<nat> := [], [];
    for n := 0 to |sdts|
      invariant n > 0 ==> Spaced(sdts[..n])
      invariant offsets == if n == 0 then [] else Offs(sdts[..n])
      invariant blob == BlobOfFirst(sdts, n)
    {
      var sdt := sdts[n];
      SpacedStep(sdts, n);
      if Spaced(sdts) {
        SpacedPrefixOf(sdts, n + 1);
      }
      if |sdt.bytes| < HEADER_LEN {
        return Err(BadTable);
      }
      var offset := sdt.gpa - start;
      if offset < |blob| || offset + |sdt.bytes| > MAX_TABLES_BYTES {
        return Err(BadTable);
      }
      PlaceStep(sdts, n);
      blob := Extend(blob, offset, sdt.bytes);
      offsets := offsets + [offset];
    }
    assert sdts[..|sdts|] == sdts;
    AllPlaced(sdts);
    return Ok((blob, offsets));
  }

  lemma AllPlaced(sdts: seq<PlacedTable>)
    requires Spaced(sdts) && sdts[..|sdts|] == sdts
    ensures Placed(BytesOf(sdts), Offs(sdts)) && BlobOfFirst(sdts, |sdts|) == Blob(BytesOf(sdts), Offs(sdts))
  {
    hide Blob;
    BlobEnds(sdts);
  }

  lemma BlobEnds(s: seq<PlacedTable>)
    requires Spaced(s)
    ensures Placed(BytesOf(s), Offs(s))
    ensures |Blob(BytesOf(s), Offs(s))| == s[|s| - 1].gpa - s[0].gpa + |s[|s| - 1].bytes|
  {
    hide Blob;
    LikePlaced(s, BytesOf(s));
  }

  /** The buffer holding the first `n` tables; empty before the first. */
  ghost function BlobOfFirst(sdts: seq<PlacedTable>, n: nat): (r: seq<byte>)
    requires n <= |sdts| && (n > 0 ==> Spaced(sdts[..n]))
    ensures |r| == if n == 0 then 0 else sdts[n - 1].gpa - sdts[0].gpa + |sdts[n - 1].bytes|
  {
    if n == 0 then []
    else
      BlobEnds(sdts[..n]);
      Blob(BytesOf(sdts[..n]), Offs(sdts[..n]))
  }

  lemma PlaceStep(sdts: seq<PlacedTable>, n: nat)
    requires n < |sdts| && Spaced(sdts[..n + 1])
    ensures n > 0 ==> Spaced(sdts[..n])
    ensures Offs(sdts[..n + 1]) == (if n == 0 then [] else Offs(sdts[..n])) + [sdts[n].gpa - sdts[0].gpa]
    ensures |BlobOfFirst(sdts, n)| <= sdts[n].gpa - sdts[0].gpa
    ensures BlobOfFirst(sdts, n + 1) == Extend(BlobOfFirst(sdts, n), sdts[n].gpa - sdts[0].gpa, sdts[n].bytes)
  {
    hide Extend, Spaced, Placed, Blob, BlobOfFirst, BytesOf, Offs;
    var s' := sdts[..n + 1];
    FirstIs(sdts, n + 1);
    PrefixShape(sdts, n);
    BlobLast(BytesOf(s'), Offs(s'));
    if n > 0 {
      FirstIs(sdts, n);
      SpacedLast(s', n);
    } else {
      NothingFirst(sdts);
    }
  }

  lemma FirstIs(sdts: seq<PlacedTable>, n: nat)
    requires 0 < n <= |sdts| && Spaced(sdts[..n])
    ensures Placed(BytesOf(sdts[..n]), Offs(sdts[..n]))
            && BlobOfFirst(sdts, n) == Blob(BytesOf(sdts[..n]), Offs(sdts[..n]))
    ensures Offs(sdts[..n])[n - 1] == sdts[n - 1].gpa - sdts[0].gpa && BytesOf(sdts[..n])[n - 1] == sdts[n - 1].bytes
  {
    hide Blob, Spaced;
    BlobEnds(sdts[..n]);
  }

  lemma NothingFirst(sdts: seq<PlacedTable>)
    ensures BlobOfFirst(sdts, 0) == []
  {
  }

  lemma PrefixShape(sdts: seq<PlacedTable>, n: nat)
    requires n < |sdts| && Spaced(sdts[..n + 1])
    ensures var s, s' := sdts[..n], sdts[..n + 1];
            && BytesOf(s')[..n] == BytesOf(s)
            && (n > 0 ==> Spaced(s))
            && Offs(s')[..n] == (if n == 0 then [] else Offs(s))
            && Offs(s') == (if n == 0 then [] else Offs(s)) + [sdts[n].gpa - sdts[0].gpa]
  {
    var s, s' := sdts[..n], sdts[..n + 1];
    assert s'[..n] == s && s'[0] == sdts[0] && s'[n] == sdts[n];
    if n > 0 {
      SpacedPrefixOf(s', n);
    }
  }

  lemma SpacedLast(s: seq<PlacedTable>, n: nat)
    requires Spaced(s) && |s| == n + 1 && n > 0
    ensures s[n - 1].gpa + |s[n - 1].bytes| <= s[n].gpa
  {
  }

  lemma BlobLast(parts: seq<seq<byte>>, offs: seq<nat>)
    requires Placed(parts, offs) && parts != []
    ensures var n := |parts| - 1;
            Placed(parts[..n], offs[..n]) && |Blob(parts[..n], offs[..n])| <= offs[n]
            && Blob(parts, offs) == Extend(Blob(parts[..n], offs[..n]), offs[n], parts[n])
            && (n == 0 ==> Blob(parts[..n], offs[..n]) == [])
  {
    hide Extend;
  }

  // ----- patching -----

  method IsStart(sdts: seq<PlacedTable>, value: nat) returns (r: bool)
    ensures r <==> IsTarget(sdts, value)
  {
    for i := 0 to |sdts|
      invariant forall k :: 0 <= k < i ==> sdts[k].gpa != value
    {
      if sdts[i].gpa == value {
        return true;
      }
    }
    return false;
  }

  ghost predicate ResolvedFirst(sdts: seq<PlacedTable>, s: seq<byte>, fs: seq<Field>, n: nat)
    requires Separate(fs, |s|) && n <= |fs|
  {
    forall k :: 0 <= k < n ==> Value(s, fs[k]) == 0 || IsTarget(sdts, Value(s, fs[k]))
  }

  /** The relative values of resolved fields fit. */
  lemma RelativeFit(sdts: seq<PlacedTable>, s: seq<byte>, fs: seq<Field>, n: nat)
    requires Separate(fs, |s|) && n <= |fs| && sdts != []
    ensures forall k :: 0 <= k < n ==> MovedVals(s, fs, sdts[0].gpa, 0)[k] < Pow256(fs[k].size)
  {
    hide FromLE;
    forall k | 0 <= k < n ensures MovedVals(s, fs, sdts[0].gpa, 0)[k] < Pow256(fs[k].size) {
      LEOfFromLE(s[fs[k].at..fs[k].at + fs[k].size]);
    }
  }

  /** Make one buffer's pointers relative: the inner loop, on a whole file whose part at `at` is `s`. */
  method Patch(sdts: seq<PlacedTable>, file: FileName, ghost s: seq<byte>, fs: seq<Field>, at: nat, whole: seq<byte>)
    returns (r: Result<(seq<byte>, seq<LoaderCommand>), AcpiError>)
    requires Spaced(sdts) && Separate(fs, |s|) && at + |s| <= |whole| && at + |s| < U32
    requires forall k :: 0 <= k < |fs| ==>
               at + fs[k].at + fs[k].size <= |whole| && Value(whole, Shifted(fs[k], at)) == Value(s, fs[k])
    ensures r.Ok? <==> Resolved(sdts, s, fs)
    ensures r.Err? ==> r == Err(BadTable)
    ensures Separate(ShiftAll(fs, at), |whole|)
    ensures r.Ok? ==> r.value.0 == WriteFields(whole, ShiftAll(fs, at), MovedVals(s, fs, sdts[0].gpa, 0), |fs|)
    ensures r.Ok? ==> r.value.1 == Pointers(file, s, fs, at, |fs|)
  {
    hide Value, PutValue, MovedVals, Spaced, IsTarget, Pointer, IsUtf8, WriteFields, Pointers, ShiftAll, Separate;
    var start := sdts[0].gpa;
    var blob, commands := whole, [];
    ghost var gs, vals := ShiftAll(fs, at), MovedVals(s, fs, start, 0);
    PatchStart(file, s, fs, vals, at, whole);
    for k := 0 to |fs|
      invariant ResolvedFirst(sdts, s, fs, k)
      invariant blob == WriteFields(whole, gs, vals, k)
      invariant commands == Pointers(file, s, fs, at, k)
    {
      FieldInside(fs, |s|, k);
      var f := Shifted(fs[k], at);
      PatchStep(sdts, file, s, fs, at, whole, k);
      var value := Value(blob, f);
      if value == 0 {
        continue;
      }
      var known := IsStart(sdts, value);
      if !known {
        return Err(BadTable);
      }
      TargetAbove(sdts, value);
      blob := PutValue(blob, f, value - start);
      commands := commands + [Pointer(file, f.at, f.size)];
    }
    return Ok((blob, commands));
  }

  lemma PatchStart(file: FileName, s: seq<byte>, fs: seq<Field>, vals: seq<nat>, at: nat, whole: seq<byte>)
    requires Separate(fs, |s|) && |vals| == |fs| && at + |s| <= |whole| && at + |s| < U32
    ensures Separate(ShiftAll(fs, at), |whole|) && WriteFields(whole, ShiftAll(fs, at), vals, 0) == whole
    ensures forall k :: 0 <= k < |fs| ==> fs[k].at + fs[k].size <= |s| && fs[k].size < 256
    ensures Pointers(file, s, fs, at, 0) == []
  {
    ShiftSeparate(fs, |s|, at, |whole|);
  }

  /** One field: it still shows its own value, and patching it is one more field written. */
  lemma PatchStep(sdts: seq<PlacedTable>, file: FileName, s: seq<byte>, fs: seq<Field>, at: nat, whole: seq<byte>,
      k: nat)
    requires Spaced(sdts) && Separate(fs, |s|) && at + |s| <= |whole| && at + |s| < U32 && k < |fs|
    requires forall k :: 0 <= k < |fs| ==>
               at + fs[k].at + fs[k].size <= |whole| && Value(whole, Shifted(fs[k], at)) == Value(s, fs[k])
    requires Separate(ShiftAll(fs, at), |whole|)
             && forall k :: 0 <= k < |fs| ==> fs[k].at + fs[k].size <= |s| && fs[k].size < 256
    ensures var gs, vals := ShiftAll(fs, at), MovedVals(s, fs, sdts[0].gpa, 0);
            var blob, f, v := WriteFields(whole, gs, vals, k), Shifted(fs[k], at), Value(s, fs[k]);
            && Value(blob, f) == v
            && (v == 0 ==>
                 WriteFields(whole, gs, vals, k + 1) == blob
                 && Pointers(file, s, fs, at, k + 1) == Pointers(file, s, fs, at, k))
            && (v != 0 ==>
                 Pointers(file, s, fs, at, k + 1) == Pointers(file, s, fs, at, k) + [Pointer(file, f.at, f.size)])
            && (v != 0 && sdts[0].gpa <= v ==>
                 WriteFields(whole, gs, vals, k + 1) == PutValue(blob, f, v - sdts[0].gpa))
  {
    hide Value, PutValue, Spaced, Pow256, Pointer, IsUtf8, Separate;
    var gs, vals := ShiftAll(fs, at), MovedVals(s, fs, sdts[0].gpa, 0);
    RelativeFit(sdts, s, fs, |fs|);
    WriteFieldsReads(whole, gs, vals, k);
    PutSameValue(WriteFields(whole, gs, vals, k), gs[k]);
  }

  lemma TargetAbove(sdts: seq<PlacedTable>, v: nat)
    requires Spaced(sdts) && IsTarget(sdts, v) && v != 0
    ensures sdts[0].gpa <= v && MovedVal(v, sdts[0].gpa, 0) == v - sdts[0].gpa
  {
  }

  ghost function RelativeOf(sdts: seq<PlacedTable>, i: nat): (r: seq<byte>)
    requires Spaced(sdts) && i < |sdts|
    ensures |r| == |sdts[i].bytes|
  {
    FieldsAreSeparate(sdts[i].signature, |sdts[i].bytes|);
    Relative(sdts[i].bytes, PointersIn(sdts[i]), sdts[0].gpa)
  }

  /** The tables when the first `linked` have relative pointers and the first `cleared` a zero checksum. */
  ghost function PartsSoFar(sdts: seq<PlacedTable>, linked: nat, cleared: nat): (r: seq<seq<byte>>)
    requires Spaced(sdts)
    ensures |r| == |sdts|
    ensures forall i :: 0 <= i < |sdts| ==>
              r[i] == if i < cleared then Part(sdts, i) else if i < linked then RelativeOf(sdts, i) else sdts[i].bytes
    ensures Placed(r, Offs(sdts))
  {
    var parts := seq(|sdts|, i requires 0 <= i < |sdts| =>
      if i < cleared then Part(sdts, i) else if i < linked then RelativeOf(sdts, i) else sdts[i].bytes);
    LikePlaced(sdts, parts);
    parts
  }

  ghost function BlobSoFar(sdts: seq<PlacedTable>, linked: nat, cleared: nat): (r: seq<byte>)
    requires Spaced(sdts)
  {
    Blob(PartsSoFar(sdts, linked, cleared), Offs(sdts))
  }

  ghost predicate ResolvedTable(sdts: seq<PlacedTable>, i: nat)
    requires Spaced(sdts) && i < |sdts|
  {
    FieldsAreSeparate(sdts[i].signature, |sdts[i].bytes|);
    Resolved(sdts, sdts[i].bytes, PointersIn(sdts[i]))
  }

  /** An unlinked table shows its own field values through the blob. */
  lemma UnlinkedValues(sdts: seq<PlacedTable>, m: nat)
    requires Spaced(sdts) && m < |sdts|
    ensures Separate(PointersIn(sdts[m]), |sdts[m].bytes|)
    ensures var s, fs, at, whole := sdts[m].bytes, PointersIn(sdts[m]), Offs(sdts)[m], BlobSoFar(sdts, m, 0);
            && at + |s| <= |whole| && at + |s| < U32
            && forall k :: 0 <= k < |fs| ==>
                 at + fs[k].at + fs[k].size <= |whole| && Value(whole, Shifted(fs[k], at)) == Value(s, fs[k])
  {
    hide Value, Blob, FieldsOf, RelativeOf, Part, Spaced;
    SpacedWhole(sdts, m);
    FieldsAreSeparate(sdts[m].signature, |sdts[m].bytes|);
    var parts := PartsSoFar(sdts, m, 0);
    BlobAt(parts, Offs(sdts), m);
    var fs := PointersIn(sdts[m]);
    forall k | 0 <= k < |fs|
      ensures Value(BlobSoFar(sdts, m, 0), Shifted(fs[k], Offs(sdts)[m])) == Value(sdts[m].bytes, fs[k])
    {
      BlobValue(parts, Offs(sdts), m, fs[k]);
    }
  }

  lemma LinkedStep(sdts: seq<PlacedTable>, m: nat)
    requires Spaced(sdts) && m < |sdts|
    ensures Separate(PointersIn(sdts[m]), |sdts[m].bytes|)
    ensures var s, fs, at := sdts[m].bytes, PointersIn(sdts[m]), Offs(sdts)[m];
            && Separate(ShiftAll(fs, at), |BlobSoFar(sdts, m, 0)|)
            && WriteFields(BlobSoFar(sdts, m, 0), ShiftAll(fs, at), MovedVals(s, fs, sdts[0].gpa, 0), |fs|)
               == BlobSoFar(sdts, m + 1, 0)
  {
    hide Value, Blob, FieldsOf, Part, MovedVal, WriteFields, Separate, Spaced;
    SpacedWhole(sdts, m);
    FieldsAreSeparate(sdts[m].signature, |sdts[m].bytes|);
    var parts, fs := PartsSoFar(sdts, m, 0), PointersIn(sdts[m]);
    BlobWriteFields(parts, Offs(sdts), m, fs, MovedVals(sdts[m].bytes, fs, sdts[0].gpa, 0), |fs|);
    assert parts[m := RelativeOf(sdts, m)] == PartsSoFar(sdts, m + 1, 0);
  }

  /** One table's pointers, in place in the file. */
  method LinkTable(sdts: seq<PlacedTable>, m: nat, blob: seq<byte>, offset: nat)
    returns (r: Result<(seq<byte>, seq<LoaderCommand>), AcpiError>)
    requires Spaced(sdts) && m < |sdts| && offset == Offs(sdts)[m] && blob == BlobSoFar(sdts, m, 0)
    ensures r.Ok? <==> ResolvedTable(sdts, m)
    ensures r.Err? ==> r == Err(BadTable)
    ensures r.Ok? ==> r.value == (BlobSoFar(sdts, m + 1, 0), TablePointers(sdts, m))
  {
    hide BlobSoFar, Pointers, WriteFields, Value, FieldsOf, Spaced, Separate, Resolved, IsUtf8, TablesFile, MovedVals,
      Offs, ShiftAll, Shifted;
    UnlinkedValues(sdts, m);
    LinkedStep(sdts, m);
    r := Patch(sdts, TablesFile(), sdts[m].bytes, PointersIn(sdts[m]), offset, blob);
  }

  /** The pointer loop over every table. */
  method Link(sdts: seq<PlacedTable>, blob: seq<byte>, offsets: seq<nat>)
    returns (r: Result<(seq<byte>, seq<LoaderCommand>), AcpiError>)
    requires Spaced(sdts) && offsets == Offs(sdts) && blob == BlobSoFar(sdts, 0, 0)
    ensures r.Ok? <==> forall i :: 0 <= i < |sdts| ==> ResolvedTable(sdts, i)
    ensures r.Err? ==> r == Err(BadTable)
    ensures r.Ok? ==> r.value == (BlobSoFar(sdts, |sdts|, 0), AllPointers(sdts, |sdts|))
  {
    hide BlobSoFar, ResolvedTable, FieldsOf, TablePointers, Spaced;
    var out, commands := blob, [];
    for m := 0 to |sdts|
      invariant forall i :: 0 <= i < m ==> ResolvedTable(sdts, i)
      invariant out == BlobSoFar(sdts, m, 0)
      invariant commands == AllPointers(sdts, m)
    {
      var patched := LinkTable(sdts, m, out, offsets[m]);
      if patched.Err? {
        return Err(BadTable);
      }
      out := patched.value.0;
      commands := commands + patched.value.1;
    }
    return Ok((out, commands));
  }

  lemma ClearedStep(sdts: seq<PlacedTable>, m: nat)
    requires Spaced(sdts) && m < |sdts|
    ensures var at, whole := Offs(sdts)[m] + CHECKSUM_OFFSET, BlobSoFar(sdts, |sdts|, m);
            at < |whole| && whole[at := 0] == BlobSoFar(sdts, |sdts|, m + 1)
  {
    hide Blob, Relative, Put, FieldsOf;
    var parts, offs := PartsSoFar(sdts, |sdts|, m), Offs(sdts);
    BlobPut(parts, offs, m, CHECKSUM_OFFSET, [0]);
    PutOne(parts[m], CHECKSUM_OFFSET, 0);
    PutOne(Blob(parts, offs), offs[m] + CHECKSUM_OFFSET, 0);
    assert parts[m := Part(sdts, m)] == PartsSoFar(sdts, |sdts|, m + 1);
  }

  /** The checksum loop over every table. */
  method ClearChecksums(sdts: seq<PlacedTable>, blob: seq<byte>, offsets: seq<nat>)
      returns (out: seq<byte>, commands: seq<LoaderCommand>)
    requires Spaced(sdts) && offsets == Offs(sdts) && blob == BlobSoFar(sdts, |sdts|, 0)
    ensures out == BlobSoFar(sdts, |sdts|, |sdts|) && commands == AllSums(sdts, |sdts|)
  {
    hide BlobSoFar, IsUtf8, TablesFile;
    out, commands := blob, [];
    for m := 0 to |sdts|
      invariant out == BlobSoFar(sdts, |sdts|, m) && commands == AllSums(sdts, m)
    {
      ClearedStep(sdts, m);
      var at := offsets[m];
      out := out[at + CHECKSUM_OFFSET := 0];
      commands := commands + [AddChecksum(TablesFile(), at + CHECKSUM_OFFSET, at, |sdts[m].bytes|)];
    }
  }

  lemma LoopsMeetSpec(sdts: seq<PlacedTable>, rsdp: seq<byte>)
    requires Spaced(sdts) && |rsdp| == RSDP_LEN
    ensures BlobSoFar(sdts, |sdts|, |sdts|) == Compiled(sdts, rsdp).tables
    ensures BytesOf(sdts) == PartsSoFar(sdts, 0, 0)
  {
    hide Blob, Part, RelativeOf, Script, RelativeRsdp, Resolved, FieldsOf;
    assert PartsSoFar(sdts, |sdts|, |sdts|) == FileParts(sdts);
  }

  lemma ResolvedTables(sdts: seq<PlacedTable>)
    requires Spaced(sdts)
    ensures AllResolved(sdts) <==> forall i :: 0 <= i < |sdts| ==> ResolvedTable(sdts, i)
  {
    hide Resolved, FieldsOf;
    if forall i :: 0 <= i < |sdts| ==> ResolvedTable(sdts, i) {
      forall i | 0 <= i < |sdts|
        ensures Separate(PointersIn(sdts[i]), |sdts[i].bytes|) && Resolved(sdts, sdts[i].bytes, PointersIn(sdts[i]))
      {
        assert ResolvedTable(sdts, i);
        FieldsAreSeparate(sdts[i].signature, |sdts[i].bytes|);
      }
    }
  }

  /**
    `LoaderBlobs::build`. No table's end, counted from another's start, wraps:
    the source adds offset and length unchecked.
   */
  method Build(tables: seq<PlacedTable>) returns (r: Result<LoaderBlobs, AcpiError>)
    requires forall t, u :: t in Sdts(tables) && u in Sdts(tables) && u.gpa <= t.gpa ==> t.gpa - u.gpa + |t.bytes| < U64
    ensures r.Ok? <==> Accepts(tables)
    ensures r.Err? ==> r == Err(BadTable)
    ensures r.Ok? ==> r.value == CompiledSet(tables)
  {
    hide Accepts, SortByGpa, Spaced, AllResolved, Resolved, Rsdps, Sdts, BlobSoFar, AllPointers, AllSums, Blob,
      FileParts, Pointers, WriteFields, IsUtf8, RsdpFile, TablesFile, Value, ResolvedTable;
    AcceptsIsLinkable(tables);
    var rsdps := Rsdps(tables);
    if |rsdps| != 1 {
      return Err(BadTable);
    }
    var rsdp := rsdps[0].bytes;
    if |rsdp| != RSDP_LEN {
      return Err(BadTable);
    }
    var sdts := SortByGpa(Sdts(tables));
    SortByGpaSorts(Sdts(tables));
    if |sdts| == 0 {
      EmptyNotSpaced(sdts);
      return Err(BadTable);
    }
    var placed := Place(sdts);
    if placed.Err? {
      return Err(BadTable);
    }
    var (blob, offsets) := placed.value;
    LoopsMeetSpec(sdts, rsdp);
    ResolvedTables(sdts);
    StartsPlain(sdts);
    var linked := Link(sdts, blob, offsets);
    if linked.Err? {
      return Err(BadTable);
    }
    var (relative, pointers) := linked.value;
    var cleared, sums := ClearChecksums(sdts, relative, offsets);
    RsdpFieldsSeparate();
    var patched := Patch(sdts, RsdpFile(), rsdp, RSDP_FIELDS, 0, rsdp);
    if patched.Err? {
      return Err(BadTable);
    }
    var (rsdpBlob, rsdpPointers) := patched.value;
    rsdpBlob := rsdpBlob[RSDP_CHECKSUM_OFFSET := 0];
    rsdpBlob := rsdpBlob[RSDP_EXT_CHECKSUM_OFFSET := 0];
    var commands := Allocates() + pointers + sums + rsdpPointers + RsdpSums();
    return Ok(LoaderBlobs(rsdpBlob, cleared, commands));
  }

  lemma EmptyNotSpaced(sdts: seq<PlacedTable>)
    requires sdts == []
    ensures !Spaced(sdts)
  {
  }

  lemma StartsPlain(sdts: seq<PlacedTable>)
    requires Spaced(sdts) && BytesOf(sdts) == PartsSoFar(sdts, 0, 0)
    ensures Placed(BytesOf(sdts), Offs(sdts)) && Blob(BytesOf(sdts), Offs(sdts)) == BlobSoFar(sdts, 0, 0)
  {
    hide Blob;
  }
}
