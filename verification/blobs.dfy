/** Many buffers laid out in one: patching the whole is patching a part. */
module Blobs {
  import opened Bytes

  /** Part `i` ends at or before part `j > i` starts. */
  ghost predicate Placed(parts: seq<seq<byte>>, offs: seq<nat>): (r: bool)
    ensures r ==> |parts| == |offs|
  {
    |parts| == |offs| && forall i, j :: 0 <= i < j < |parts| ==> offs[i] + |parts[i]| <= offs[j]
  }

  ghost function End(parts: seq<seq<byte>>, offs: seq<nat>): (r: nat)
    requires Placed(parts, offs)
  {
    if parts == [] then 0 else offs[|parts| - 1] + |parts[|parts| - 1]|
  }

  /** `resize` to `off`, then append. */
  function Extend(p: seq<byte>, off: nat, part: seq<byte>): (r: seq<byte>)
    requires |p| <= off
    ensures |r| == off + |part|
  {
    p + Zeros(off - |p|) + part
  }

  /** Each part at its offset, zeros between. */
  ghost function Blob(parts: seq<seq<byte>>, offs: seq<nat>): (r: seq<byte>)
    requires Placed(parts, offs)
    ensures |r| == End(parts, offs)
  {
    if parts == [] then []
    else
      var n := |parts| - 1;
      Extend(Blob(parts[..n], offs[..n]), offs[n], parts[n])
  }

  lemma ExtendRead(p: seq<byte>, off: nat, part: seq<byte>)
    requires |p| <= off
    ensures Extend(p, off, part)[off..off + |part|] == part
    ensures forall lo, hi :: 0 <= lo <= hi <= |p| ==> Extend(p, off, part)[lo..hi] == p[lo..hi]
  {
  }

  lemma ExtendPutBefore(p: seq<byte>, off: nat, part: seq<byte>, at: nat, b: seq<byte>)
    requires |p| <= off && at + |b| <= |p|
    ensures Put(Extend(p, off, part), at, b) == Extend(Put(p, at, b), off, part)
  {
  }

  lemma ExtendPutAfter(p: seq<byte>, off: nat, part: seq<byte>, at: nat, b: seq<byte>)
    requires |p| <= off && at + |b| <= |part|
    ensures Put(Extend(p, off, part), off + at, b) == Extend(p, off, Put(part, at, b))
  {
  }

  lemma {:induction false} BlobAt(parts: seq<seq<byte>>, offs: seq<nat>, i: nat)
    requires Placed(parts, offs) && i < |parts|
    ensures offs[i] + |parts[i]| <= |Blob(parts, offs)|
    ensures Blob(parts, offs)[offs[i]..offs[i] + |parts[i]|] == parts[i]
  {
    hide Extend;
    var n := |parts| - 1;
    ExtendRead(Blob(parts[..n], offs[..n]), offs[n], parts[n]);
    if i < n {
      BlobAt(parts[..n], offs[..n], i);
    }
  }

  lemma SameLengthsPlaced(parts: seq<seq<byte>>, offs: seq<nat>, i: nat, part: seq<byte>)
    requires Placed(parts, offs) && i < |parts| && |part| == |parts[i]|
    ensures Placed(parts[i := part], offs)
  {
  }

  /** Patching the blob inside part `i` patches that part and nothing else. */
  lemma {:induction false} BlobPut(parts: seq<seq<byte>>, offs: seq<nat>, i: nat, at: nat, b: seq<byte>)
    requires Placed(parts, offs) && i < |parts| && at + |b| <= |parts[i]|
    ensures offs[i] + at + |b| <= |Blob(parts, offs)|
    ensures Placed(parts[i := Put(parts[i], at, b)], offs)
    ensures Put(Blob(parts, offs), offs[i] + at, b) == Blob(parts[i := Put(parts[i], at, b)], offs)
  {
    hide Extend, Put;
    BlobAt(parts, offs, i);
    var part := Put(parts[i], at, b);
    var parts' := parts[i := part];
    SameLengthsPlaced(parts, offs, i, part);
    var n := |parts| - 1;
    var p := Blob(parts[..n], offs[..n]);
    if i < n {
      BlobPut(parts[..n], offs[..n], i, at, b);
      assert parts'[..n] == parts[..n][i := part];
      ExtendPutBefore(p, offs[n], parts[n], offs[i] + at, b);
    } else {
      assert parts'[..n] == parts[..n];
      ExtendPutAfter(p, offs[n], parts[n], at, b);
    }
  }
}

/** Pointer fields inside one buffer, and what it means to move them. */
module PointerFields {
  import opened Bytes
  import opened Blobs

  /** A little-endian field of `size` bytes at `at`. */
  datatype Field = Field(at: nat, size: nat)

  /** Fields in increasing, disjoint order inside `len` bytes, of 4 or 8 bytes. */
  ghost predicate Separate(fs: seq<Field>, len: nat) {
    && (forall k :: 0 <= k < |fs| ==> (fs[k].size == 4 || fs[k].size == 8) && fs[k].at + fs[k].size <= len)
    && (forall k, l :: 0 <= k < l < |fs| ==> fs[k].at + fs[k].size <= fs[l].at)
  }

  ghost predicate Covers(f: Field, i: int) {
    f.at <= i < f.at + f.size
  }

  ghost predicate Covered(fs: seq<Field>, i: int) {
    exists k :: 0 <= k < |fs| && Covers(fs[k], i)
  }

  function Value(s: seq<byte>, f: Field): (v: nat)
    requires f.at + f.size <= |s|
  {
    FromLE(s[f.at..f.at + f.size])
  }

  function PutValue(s: seq<byte>, f: Field, v: nat): (r: seq<byte>)
    requires f.at + f.size <= |s|
    ensures |r| == |s|
  {
    Put(s, f.at, LE(f.size, v))
  }

  lemma PutValueReads(s: seq<byte>, f: Field, v: nat)
    requires f.at + f.size <= |s| && v < Pow256(f.size)
    ensures Value(PutValue(s, f, v), f) == v
  {
    PutRead(s, f.at, LE(f.size, v));
    FromLEOfLE(f.size, v);
  }

  lemma PutValueElsewhere(s: seq<byte>, f: Field, v: nat, g: Field)
    requires f.at + f.size <= |s| && g.at + g.size <= |s|
    requires f.at + f.size <= g.at || g.at + g.size <= f.at
    ensures Value(PutValue(s, f, v), g) == Value(s, g)
  {
    PutElsewhere(s, f.at, LE(f.size, v), g.at, g.at + g.size);
  }

  /** The first `n` fields overwritten with `vals`. */
  ghost function WriteFields(s: seq<byte>, fs: seq<Field>, vals: seq<nat>, n: nat): (r: seq<byte>)
    requires Separate(fs, |s|) && n <= |fs| == |vals|
    ensures |r| == |s|
  {
    if n == 0 then s else PutValue(WriteFields(s, fs, vals, n - 1), fs[n - 1], vals[n - 1])
  }

  /** Written fields hold their values, the others and every uncovered byte are untouched. */
  lemma {:induction false} WriteFieldsReads(s: seq<byte>, fs: seq<Field>, vals: seq<nat>, n: nat)
    requires Separate(fs, |s|) && n <= |fs| == |vals| && forall k :: 0 <= k < n ==> vals[k] < Pow256(fs[k].size)
    ensures forall k :: 0 <= k < |fs| ==>
              Value(WriteFields(s, fs, vals, n), fs[k]) == if k < n then vals[k] else Value(s, fs[k])
    ensures forall i :: 0 <= i < |s| && !Covered(fs, i) ==> WriteFields(s, fs, vals, n)[i] == s[i]
  {
    hide Value, PutValue;
    if n > 0 {
      WriteFieldsReads(s, fs, vals, n - 1);
      var before := WriteFields(s, fs, vals, n - 1);
      var f := fs[n - 1];
      forall k | 0 <= k < |fs|
        ensures Value(PutValue(before, f, vals[n - 1]), fs[k]) == if k == n - 1 then vals[k] else Value(before, fs[k])
      {
        if k == n - 1 {
          PutValueReads(before, f, vals[k]);
        } else {
          PutValueElsewhere(before, f, vals[n - 1], fs[k]);
        }
      }
      forall i | 0 <= i < |s| && !Covered(fs, i) ensures PutValue(before, f, vals[n - 1])[i] == before[i] {
        assert !Covers(f, i);
        PutValueByte(before, f, vals[n - 1], i);
      }
    }
  }

  lemma PutValueByte(s: seq<byte>, f: Field, v: nat, i: nat)
    requires f.at + f.size <= |s| && i < |s| && !Covers(f, i)
    ensures PutValue(s, f, v)[i] == s[i]
  {
  }

  /** Patching a byte outside every field changes no field. */
  lemma ByteElsewhere(s: seq<byte>, fs: seq<Field>, at: nat, b: byte)
    requires Separate(fs, |s|) && at < |s| && !Covered(fs, at)
    ensures forall k :: 0 <= k < |fs| ==> Value(s[at := b], fs[k]) == Value(s, fs[k])
  {
    forall k | 0 <= k < |fs| ensures Value(s[at := b], fs[k]) == Value(s, fs[k]) {
      assert !Covers(fs[k], at);
      assert s[at := b][fs[k].at..fs[k].at + fs[k].size] == s[fs[k].at..fs[k].at + fs[k].size];
    }
  }

  /** Buffers that agree on every field and every uncovered byte are equal. */
  lemma SameFieldsSameBytes(s: seq<byte>, t: seq<byte>, fs: seq<Field>)
    requires |s| == |t| && Separate(fs, |s|)
    requires forall k :: 0 <= k < |fs| ==> Value(s, fs[k]) == Value(t, fs[k])
    requires forall i :: 0 <= i < |s| && !Covered(fs, i) ==> s[i] == t[i]
    ensures s == t
  {
    hide Value, Covers;
    forall i | 0 <= i < |s| ensures s[i] == t[i] {
      if Covered(fs, i) {
        var k :| 0 <= k < |fs| && Covers(fs[k], i);
        SameValueSameByte(s, t, fs[k], i);
      }
    }
  }

  lemma SameValueSameByte(s: seq<byte>, t: seq<byte>, f: Field, i: nat)
    requires |s| == |t| && f.at + f.size <= |s| && Covers(f, i) && Value(s, f) == Value(t, f)
    ensures s[i] == t[i]
  {
    hide FromLE;
    var a, b := s[f.at..f.at + f.size], t[f.at..f.at + f.size];
    FromLEInjective(a, b);
    assert a[i - f.at] == s[i] && b[i - f.at] == t[i];
  }

  /** Writing back what a field holds changes nothing. */
  lemma PutSameValue(s: seq<byte>, f: Field)
    requires f.at + f.size <= |s|
    ensures PutValue(s, f, Value(s, f)) == s
  {
    hide FromLE, LE;
    LEOfFromLE(s[f.at..f.at + f.size]);
  }

  // ----- the same fields seen from the whole blob -----

  function Shifted(f: Field, at: nat): (r: Field) {
    Field(at + f.at, f.size)
  }

  function ShiftAll(fs: seq<Field>, at: nat): (r: seq<Field>)
    ensures |r| == |fs|
    ensures forall k :: 0 <= k < |fs| ==> r[k] == Shifted(fs[k], at)
  {
    seq(|fs|, k requires 0 <= k < |fs| => Shifted(fs[k], at))
  }

  lemma ShiftSeparate(fs: seq<Field>, len: nat, at: nat, whole: nat)
    requires Separate(fs, len) && at + len <= whole
    ensures Separate(ShiftAll(fs, at), whole)
  {
  }

  lemma BlobValue(parts: seq<seq<byte>>, offs: seq<nat>, i: nat, f: Field)
    requires Placed(parts, offs) && i < |parts| && f.at + f.size <= |parts[i]|
    ensures offs[i] + |parts[i]| <= |Blob(parts, offs)|
    ensures Value(Blob(parts, offs), Shifted(f, offs[i])) == Value(parts[i], f)
  {
    hide Blob;
    BlobAt(parts, offs, i);
    SubSlice(Blob(parts, offs), offs[i], offs[i] + |parts[i]|, f.at, f.at + f.size);
  }

  /** Writing a part's fields through the blob writes them in the part. */
  lemma {:induction false} BlobWriteFields(parts: seq<seq<byte>>, offs: seq<nat>, i: nat, fs: seq<Field>,
      vals: seq<nat>, n: nat)
    requires Placed(parts, offs) && i < |parts| && Separate(fs, |parts[i]|) && n <= |fs| == |vals|
    ensures Placed(parts[i := WriteFields(parts[i], fs, vals, n)], offs)
    ensures Separate(ShiftAll(fs, offs[i]), |Blob(parts, offs)|)
    ensures WriteFields(Blob(parts, offs), ShiftAll(fs, offs[i]), vals, n)
              == Blob(parts[i := WriteFields(parts[i], fs, vals, n)], offs)
  {
    hide Blob, Placed, Separate, PutValue;
    BlobAt(parts, offs, i);
    ShiftSeparate(fs, |parts[i]|, offs[i], |Blob(parts, offs)|);
    if n == 0 {
      assert parts[i := parts[i]] == parts;
    } else {
      BlobWriteFields(parts, offs, i, fs, vals, n - 1);
      FieldInside(fs, |parts[i]|, n - 1);
      BlobWriteOne(parts, offs, i, WriteFields(parts[i], fs, vals, n - 1), fs[n - 1], vals[n - 1]);
    }
  }

  lemma BlobWriteOne(parts: seq<seq<byte>>, offs: seq<nat>, i: nat, before: seq<byte>, f: Field, v: nat)
    requires |parts| == |offs| && i < |parts| && |before| == |parts[i]| && f.at + f.size <= |before|
             && Placed(parts[i := before], offs)
    ensures Placed(parts[i := PutValue(before, f, v)], offs)
    ensures offs[i] + f.at + f.size <= |Blob(parts[i := before], offs)|
    ensures PutValue(Blob(parts[i := before], offs), Shifted(f, offs[i]), v)
              == Blob(parts[i := PutValue(before, f, v)], offs)
  {
    hide Blob, Placed, LE, Put;
    var parts' := parts[i := before];
    BlobPut(parts', offs, i, f.at, LE(f.size, v));
    assert parts'[i := PutValue(before, f, v)] == parts[i := PutValue(before, f, v)];
  }

  lemma FieldInside(fs: seq<Field>, len: nat, k: nat)
    requires Separate(fs, len) && k < |fs|
    ensures fs[k].at + fs[k].size <= len && (fs[k].size == 4 || fs[k].size == 8)
  {
  }
}
