/** Reading fields out of a table that may be too short. */
module Fields {
  import opened Results
  import opened AcpiErrors
  import opened Bytes
  import opened Sdt

  /** The bytes cut to the header's length, after checking the signature. */
  function TableBody(s: seq<byte>, signature: Signature): (r: Result<seq<byte>, AcpiError>)
    ensures r.Ok? ==> HEADER_LEN <= |r.value| <= |s|
  {
    var h :- ParseHeader(s);
    if h.signature != signature || h.length < HEADER_LEN || h.length > |s| then Err(BadTable)
    else Ok(s[..h.length])
  }

  function Field(s: seq<byte>, at: nat, n: nat): (r: Result<seq<byte>, AcpiError>)
    ensures r.Ok? <==> at + n <= |s|
    ensures r.Ok? ==> |r.value| == n
  {
    if at + n <= |s| then Ok(s[at..at + n]) else Err(Truncated)
  }

  function U16Field(s: seq<byte>, at: nat): (r: Result<nat, AcpiError>)
    ensures r.Ok? <==> at + 2 <= |s|
    ensures r.Ok? ==> r.value < 0x1_0000
  {
    FieldsFit(s);
    if at + 2 <= |s| then Ok(U16At(s, at)) else Err(Truncated)
  }

  function U32Field(s: seq<byte>, at: nat): (r: Result<u32, AcpiError>)
    ensures r.Ok? <==> at + 4 <= |s|
  {
    FieldsFit(s);
    if at + 4 <= |s| then Ok(U32At(s, at)) else Err(Truncated)
  }

  /** A built table passes the header check and comes back whole. */
  lemma TableBodyOfTable(signature: Signature, revision: byte, body: seq<byte>)
    requires HEADER_LEN + |body| < U32
    ensures var t := Table(NewHeader(signature, revision), body).value;
            TableBody(t, signature) == Ok(t) && t[HEADER_LEN..] == body && ByteSum(t) == 0 && t[..4] == signature
  {
    var t := Table(NewHeader(signature, revision), body).value;
    TableFacts(NewHeader(signature, revision), body);
    assert t[..|t|] == t;
  }

  /** A slice of the table past the header is a slice of the body. */
  lemma BodySlice(t: seq<byte>, body: seq<byte>, lo: nat, hi: nat)
    requires HEADER_LEN <= |t| && t[HEADER_LEN..] == body && HEADER_LEN <= lo <= hi <= |t|
    ensures t[lo..hi] == body[lo - HEADER_LEN..hi - HEADER_LEN]
  {
  }
}

/** The MADT: one GICC per CPU, one GICD, one GICR. Section 5.2.12 of ACPI 6.5. */
module Madt {
  import opened Results
  import opened AcpiErrors
  import opened Bytes
  import opened Sdt
  import opened Config
  import opened Fields

  // "APIC"
  const SIGNATURE: Signature := [0x41, 0x50, 0x49, 0x43]
  const FIXED_LEN: nat := 8
  const GICC_TYPE: byte := 0x0b
  const GICC_LEN: nat := 82
  const GICD_TYPE: byte := 0x0c
  const GICD_LEN: nat := 24
  const GICR_TYPE: byte := 0x0e
  const GICR_LEN: nat := 16
  const GICC_ENABLED: u32 := 1
  const GIC_VERSION_3: byte := 3
  const MAX_ENTRIES: nat := 4096

  // ----- building -----

  function Gicc(uid: u32, mpidr: u64): (r: seq<byte>)
    ensures |r| == GICC_LEN
  {
    var s := Put(Zeros(GICC_LEN), 0, [GICC_TYPE, GICC_LEN]);
    var s := Put(s, 8, LE(4, uid));
    var s := Put(s, 12, LE(4, GICC_ENABLED));
    Put(s, 68, LE(8, mpidr))
  }

  function Gicd(base: u64): (r: seq<byte>)
    ensures |r| == GICD_LEN
  {
    var s := Put(Zeros(GICD_LEN), 0, [GICD_TYPE, GICD_LEN]);
    var s := Put(s, 8, LE(8, base));
    Put(s, 20, [GIC_VERSION_3])
  }

  function Gicr(base: u64, len: u32): (r: seq<byte>)
    ensures |r| == GICR_LEN
  {
    var s := Put(Zeros(GICR_LEN), 0, [GICR_TYPE, GICR_LEN]);
    var s := Put(s, 4, LE(8, base));
    Put(s, 12, LE(4, len))
  }

  function Giccs(mpidrs: seq<u64>): (r: seq<seq<byte>>)
    requires |mpidrs| <= MAX_CPUS
    ensures |r| == |mpidrs|
    ensures forall i :: 0 <= i < |mpidrs| ==> r[i] == Gicc(i, mpidrs[i])
  {
    seq(|mpidrs|, i requires 0 <= i < |mpidrs| => Gicc(i, mpidrs[i]))
  }

  function Structures(c: AcpiConfig): (r: seq<seq<byte>>)
    requires |c.mpidrs| <= MAX_CPUS
    ensures |r| == |c.mpidrs| + 2
  {
    Giccs(c.mpidrs) + [Gicd(c.gic.distBase), Gicr(c.gic.redistBase, c.gic.redistLen)]
  }

  function Body(c: AcpiConfig): (r: seq<byte>)
    requires |c.mpidrs| <= MAX_CPUS
  {
    Zeros(FIXED_LEN) + Flatten(Structures(c))
  }

  lemma {:induction false} GiccsLength(mpidrs: seq<u64>, n: nat)
    requires |mpidrs| <= MAX_CPUS && n <= |mpidrs|
    ensures |Flatten(Giccs(mpidrs)[..n])| == n * GICC_LEN
  {
    if n > 0 {
      GiccsLength(mpidrs, n - 1);
      var g := Giccs(mpidrs);
      assert g[..n] == g[..n - 1] + [g[n - 1]];
      FlattenAppend(g[..n - 1], g[n - 1]);
    }
  }

  lemma BodyLength(c: AcpiConfig)
    requires |c.mpidrs| <= MAX_CPUS
    ensures |Body(c)| == FIXED_LEN + |c.mpidrs| * GICC_LEN + GICD_LEN + GICR_LEN
  {
    hide Gicd, Gicr;
    GiccsLength(c.mpidrs, |c.mpidrs|);
    BodyEnds(c);
  }

  function Madt(c: AcpiConfig): (r: Result<seq<byte>, AcpiError>)
    ensures r.Ok? <==> Valid(c)
  {
    if !Valid(c) then Err(BadConfig)
    else
      BodyLength(c);
      Table(NewHeader(SIGNATURE, 6), Body(c))
  }

  /** The source's loop: a zeroed array patched per CPU and appended. */
  method BuildMadt(c: AcpiConfig) returns (r: Result<seq<byte>, AcpiError>)
    ensures r == Madt(c)
  {
    hide Put, LE, Flatten;
    if !Valid(c) {
      return Err(BadConfig);
    }
    var body := Zeros(FIXED_LEN);
    FlattenNone();
    for index := 0 to |c.mpidrs|
      invariant body == Zeros(FIXED_LEN) + Flatten(Giccs(c.mpidrs)[..index])
    {
      var gicc := Zeros(GICC_LEN);
      gicc := Put(gicc, 0, [GICC_TYPE, GICC_LEN]);
      gicc := Put(gicc, 8, LE(4, index));
      gicc := Put(gicc, 12, LE(4, 1));
      gicc := Put(gicc, 68, LE(8, c.mpidrs[index]));
      body := body + gicc;
      GiccsStep(c.mpidrs, index);
    }
    body := body + Gicd(c.gic.distBase) + Gicr(c.gic.redistBase, c.gic.redistLen);
    BodyEnds(c);
    BodyLength(c);
    r := Table(NewHeader(SIGNATURE, 6), body);
  }

  lemma FlattenNone()
    ensures Flatten([]) == []
  {
  }

  lemma GiccsStep(mpidrs: seq<u64>, n: nat)
    requires |mpidrs| <= MAX_CPUS && n < |mpidrs|
    ensures Flatten(Giccs(mpidrs)[..n + 1]) == Flatten(Giccs(mpidrs)[..n]) + Gicc(n, mpidrs[n])
  {
    hide Gicc;
    var g := Giccs(mpidrs);
    assert g[..n + 1] == g[..n] + [g[n]];
    FlattenAppend(g[..n], g[n]);
  }

  lemma BodyEnds(c: AcpiConfig)
    requires |c.mpidrs| <= MAX_CPUS
    ensures Body(c) == Zeros(FIXED_LEN) + Flatten(Giccs(c.mpidrs)[..|c.mpidrs|])
                       + Gicd(c.gic.distBase) + Gicr(c.gic.redistBase, c.gic.redistLen)
  {
    hide Gicd, Gicr;
    var g, d, r := Giccs(c.mpidrs), Gicd(c.gic.distBase), Gicr(c.gic.redistBase, c.gic.redistLen);
    assert g[..|c.mpidrs|] == g;
    FlattenAppend(g, d);
    FlattenAppend(g + [d], r);
    assert g + [d] + [r] == Structures(c);
  }

  // ----- decoding -----

  datatype GiccInfo = GiccInfo(uid: u32, flags: u32, gicrBase: u64, mpidr: u64)

  datatype MadtInfo = MadtInfo(giccs: seq<GiccInfo>, gicds: seq<(u64, byte)>, gicrs: seq<(u64, u32)>)

  predicate IsStructure(s: seq<byte>) {
    2 <= |s| && s[1] == |s|
  }

  /** A GICC, GICD or GICR holds all the fields that are read from it. */
  predicate LongEnough(s: seq<byte>)
    requires IsStructure(s)
  {
    && (s[0] == GICC_TYPE ==> 76 <= |s|)
    && (s[0] == GICD_TYPE ==> 21 <= |s|)
    && (s[0] == GICR_TYPE ==> 16 <= |s|)
  }

  predicate Readable(structs: seq<seq<byte>>) {
    forall i :: 0 <= i < |structs| ==> IsStructure(structs[i]) && LongEnough(structs[i])
  }

  function Add(info: MadtInfo, s: seq<byte>): (r: MadtInfo)
    requires IsStructure(s) && LongEnough(s)
  {
    FieldsFit(s);
    if s[0] == GICC_TYPE then
      info.(giccs := info.giccs + [GiccInfo(U32At(s, 8), U32At(s, 12), U64At(s, 60), U64At(s, 68))])
    else if s[0] == GICD_TYPE then info.(gicds := info.gicds + [(U64At(s, 8), s[20])])
    else if s[0] == GICR_TYPE then info.(gicrs := info.gicrs + [(U64At(s, 4), U32At(s, 12))])
    else info
  }

  /** What a list of structures says, in table order. */
  function Collect(structs: seq<seq<byte>>): (r: MadtInfo)
    requires Readable(structs)
  {
    if structs == [] then MadtInfo([], [], [])
    else Add(Collect(structs[..|structs| - 1]), structs[|structs| - 1])
  }

  /** `structs` tile `s` exactly, each one's length byte being its length. */
  ghost predicate IsTiling(structs: seq<seq<byte>>, s: seq<byte>) {
    Flatten(structs) == s && forall i :: 0 <= i < |structs| ==> IsStructure(structs[i])
  }

  function Contents(t: seq<byte>): (r: seq<byte>) {
    if |t| < HEADER_LEN + FIXED_LEN then [] else t[HEADER_LEN + FIXED_LEN..]
  }

  /** The structures can be listed: they tile the contents, are readable, and number at most 4096. */
  ghost predicate Listable(structs: seq<seq<byte>>, s: seq<byte>) {
    IsTiling(structs, s) && Readable(structs) && |structs| <= MAX_ENTRIES
  }

  /** Cut `s` into structures by their length bytes. */
  function Tile(s: seq<byte>): (r: Option<seq<seq<byte>>>) {
    if s == [] then Some([])
    else if |s| < 2 || s[1] < 2 || s[1] > |s| then None
    else
      var rest := Tile(s[s[1]..]);
      if rest.None? then None else Some([s[..s[1]]] + rest.value)
  }

  /** Cutting finds the tiling, and finds none only when there is none. */
  lemma {:induction false} TileTiles(s: seq<byte>)
    ensures Tile(s).Some? ==> IsTiling(Tile(s).value, s)
  {
    if Tile(s).Some? && s != [] {
      var tail := Tile(s[s[1]..]).value;
      TileTiles(s[s[1]..]);
      assert ([s[..s[1]]] + tail)[1..] == tail;
      assert s == s[..s[1]] + s[s[1]..];
    }
  }

  lemma {:induction false} TilingIsTile(structs: seq<seq<byte>>, s: seq<byte>)
    requires IsTiling(structs, s)
    ensures Tile(s) == Some(structs)
  {
    if structs != [] {
      var head, tail := structs[0], structs[1..];
      assert IsStructure(head);
      DropHead(head, Flatten(tail));
      assert s[1] == head[1];
      assert forall i :: 0 <= i < |tail| ==> tail[i] == structs[i + 1];
      TilingIsTile(tail, s[|head|..]);
      assert structs == [head] + tail;
    }
  }

  function DecodedMadt(bytes: seq<byte>): (r: Result<MadtInfo, AcpiError>) {
    var table :- TableBody(bytes, SIGNATURE);
    var structs := Tile(Contents(table));
    if structs.None? || |structs.value| > MAX_ENTRIES || !Readable(structs.value) then Err(Truncated)
    else Ok(Collect(structs.value))
  }

  /**
    Once the header check passes, decoding succeeds exactly when the contents
    can be listed, and returns what that listing says.
   */
  lemma DecodedMadtLists(bytes: seq<byte>)
    requires TableBody(bytes, SIGNATURE).Ok?
    ensures var contents := Contents(TableBody(bytes, SIGNATURE).value);
            && (DecodedMadt(bytes).Ok? <==> exists structs :: Listable(structs, contents))
            && forall structs :: Listable(structs, contents) ==> DecodedMadt(bytes) == Ok(Collect(structs))
  {
    var contents := Contents(TableBody(bytes, SIGNATURE).value);
    TileTiles(contents);
    if DecodedMadt(bytes).Ok? {
      assert Listable(Tile(contents).value, contents);
    }
    forall structs | Listable(structs, contents) ensures Tile(contents) == Some(structs) {
      TilingIsTile(structs, contents);
    }
  }

  /** The source's loop over `at`. */
  method DecodeMadt(bytes: seq<byte>) returns (r: Result<MadtInfo, AcpiError>)
    ensures r == DecodedMadt(bytes)
  {
    hide TableBody, Tile, Add, Follows, LongEnough;
    var body := TableBody(bytes, SIGNATURE);
    if body.Err? {
      return Err(body.error);
    }
    var table := body.value;
    var info := MadtInfo([], [], []);
    var at := HEADER_LEN + FIXED_LEN;
    var seen := 0;
    ghost var whole := Tile(Contents(table));
    ghost var done: seq<seq<byte>> := [];
    FollowsStart(Contents(table));
    while at < |table|
      invariant at >= HEADER_LEN + FIXED_LEN && (at <= |table| || Contents(table) == [])
      invariant Readable(done) && info == Collect(done)
      invariant seen == |done| <= MAX_ENTRIES
      invariant Follows(whole, done, if at <= |table| then table[at..] else [])
      decreases |table| - at
    {
      ghost var left := table[at..];
      if at + 2 > |table| {
        FollowsStop(whole, done, left);
        return Err(Truncated);
      }
      var len := table[at + 1];
      if len < 2 || at + len > |table| {
        FollowsStop(whole, done, left);
        return Err(Truncated);
      }
      var s := table[at..at + len];
      FollowsStep(whole, done, left);
      assert left[..len] == s && left[len..] == table[at + len..];
      if !LongEnough(s) {
        return Err(Truncated);
      }
      info := Add(info, s);
      CollectAppend(done, s);
      done := done + [s];
      seen := seen + 1;
      if seen > MAX_ENTRIES {
        return Err(Truncated);
      }
      at := at + len;
    }
    FollowsEnd(whole, done);
    return Ok(info);
  }

  /** The tiling is `done` and then the tiling of what is left. */
  ghost predicate Follows(whole: Option<seq<seq<byte>>>, done: seq<seq<byte>>, left: seq<byte>) {
    whole == if Tile(left).None? then None else Some(done + Tile(left).value)
  }

  lemma FollowsStart(left: seq<byte>)
    ensures Follows(Tile(left), [], left)
  {
    if Tile(left).Some? {
      assert [] + Tile(left).value == Tile(left).value;
    }
  }

  lemma FollowsEnd(whole: Option<seq<seq<byte>>>, done: seq<seq<byte>>)
    requires Follows(whole, done, [])
    ensures whole == Some(done)
  {
    assert done + [] == done;
  }

  lemma FollowsStop(whole: Option<seq<seq<byte>>>, done: seq<seq<byte>>, left: seq<byte>)
    requires Follows(whole, done, left) && left != [] && (|left| < 2 || left[1] < 2 || left[1] > |left|)
    ensures whole.None?
  {
  }

  lemma CollectAppend(done: seq<seq<byte>>, s: seq<byte>)
    requires Readable(done) && IsStructure(s) && LongEnough(s)
    ensures Readable(done + [s]) && Collect(done + [s]) == Add(Collect(done), s)
  {
    hide Add, LongEnough;
    assert (done + [s])[..|done|] == done;
  }

  lemma FollowsStep(whole: Option<seq<seq<byte>>>, done: seq<seq<byte>>, left: seq<byte>)
    requires Follows(whole, done, left) && |left| >= 2 && 2 <= left[1] <= |left|
    ensures Follows(whole, done + [left[..left[1]]], left[left[1]..])
    ensures whole.Some? ==> |whole.value| > |done| && left[..left[1]] == whole.value[|done|]
  {
    var rest := Tile(left[left[1]..]);
    if rest.Some? {
      assert done + ([left[..left[1]]] + rest.value) == done + [left[..left[1]]] + rest.value;
    }
  }

  // ----- round trip -----

  ghost function Describes(c: AcpiConfig): (info: MadtInfo)
    requires |c.mpidrs| <= MAX_CPUS
  {
    MadtInfo(seq(|c.mpidrs|, i requires 0 <= i < |c.mpidrs| => GiccInfo(i, GICC_ENABLED, 0, c.mpidrs[i])),
             [(c.gic.distBase, GIC_VERSION_3)],
             [(c.gic.redistBase, c.gic.redistLen)])
  }

  lemma GiccReads(uid: u32, mpidr: u64)
    ensures var s := Gicc(uid, mpidr);
            && IsStructure(s) && s[0] == GICC_TYPE
            && U32At(s, 8) == uid && U32At(s, 12) == 1 && U64At(s, 60) == 0 && U64At(s, 68) == mpidr
  {
    var s := Gicc(uid, mpidr);
    assert s[8..12] == LE(4, uid);
    U32AtLE(s, 8, uid);
    assert s[12..16] == LE(4, 1);
    U32AtLE(s, 12, 1);
    LEZero(8);
    assert s[60..68] == LE(8, 0);
    U64AtLE(s, 60, 0);
    assert s[68..76] == LE(8, mpidr);
    U64AtLE(s, 68, mpidr);
  }

  lemma GicdReads(base: u64)
    ensures var s := Gicd(base);
            IsStructure(s) && s[0] == GICD_TYPE && U64At(s, 8) == base && s[20] == GIC_VERSION_3
  {
    var s := Gicd(base);
    assert s[8..16] == LE(8, base);
    U64AtLE(s, 8, base);
  }

  lemma GicrReads(base: u64, len: u32)
    ensures var s := Gicr(base, len);
            IsStructure(s) && s[0] == GICR_TYPE && U64At(s, 4) == base && U32At(s, 12) == len
  {
    var s := Gicr(base, len);
    assert s[4..12] == LE(8, base);
    U64AtLE(s, 4, base);
    assert s[12..16] == LE(4, len);
    U32AtLE(s, 12, len);
  }

  lemma {:induction false} CollectGiccs(mpidrs: seq<u64>, n: nat)
    requires |mpidrs| <= MAX_CPUS && n <= |mpidrs|
    ensures Readable(Giccs(mpidrs)[..n])
    ensures Collect(Giccs(mpidrs)[..n])
            == MadtInfo(seq(n, i requires 0 <= i < n => GiccInfo(i, GICC_ENABLED, 0, mpidrs[i])), [], [])
  {
    hide Gicc;
    if n > 0 {
      CollectGiccs(mpidrs, n - 1);
      GiccReads(n - 1, mpidrs[n - 1]);
      var g := Giccs(mpidrs);
      assert g[..n][..n - 1] == g[..n - 1];
    }
  }

  /** Decoding what `madt` writes gives the config's CPUs and GIC windows. */
  lemma MadtRoundTrip(c: AcpiConfig)
    requires Valid(c)
    ensures var t := Madt(c).value;
            && TableBody(t, SIGNATURE) == Ok(t)
            && ByteSum(t) == 0 && t[..4] == SIGNATURE && U32At(t, 4) == |t|
            && DecodedMadt(t) == Ok(Describes(c))
  {
    hide Gicc, Gicd, Gicr;
    var t := Madt(c).value;
    BodyLength(c);
    TableBodyOfTable(SIGNATURE, 6, Body(c));
    TableFacts(NewHeader(SIGNATURE, 6), Body(c));
    var structs := Structures(c);
    assert Contents(t) == Flatten(structs) by {
      DropHead(Zeros(FIXED_LEN), Flatten(structs));
      assert t[44..] == t[HEADER_LEN..][FIXED_LEN..];
    }
    CollectStructures(c);
    TilingIsTile(structs, Contents(t));
  }

  lemma CollectStructures(c: AcpiConfig)
    requires |c.mpidrs| <= MAX_CPUS
    ensures Readable(Structures(c)) && Collect(Structures(c)) == Describes(c)
  {
    hide Gicc, Gicd, Gicr;
    var g, d, r := Giccs(c.mpidrs), Gicd(c.gic.distBase), Gicr(c.gic.redistBase, c.gic.redistLen);
    CollectGiccs(c.mpidrs, |g|);
    assert g[..|g|] == g;
    GicdReads(c.gic.distBase);
    GicrReads(c.gic.redistBase, c.gic.redistLen);
    var structs := Structures(c);
    assert structs[..|structs| - 1] == g + [d];
    assert (g + [d])[..|g|] == g;
  }
}
