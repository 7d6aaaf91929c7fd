/** Results of fallible operations. */
module Results {
  datatype Option<+T> = None | Some(value: T)

  datatype Result<+T, +E> = Ok(value: T) | Err(error: E) {
    predicate IsFailure() {
      Err?
    }

    function PropagateFailure<U>(): Result<U, E>
      requires Err?
    {
      Err(error)
    }

    function Extract(): T
      requires Ok?
    {
      value
    }
  }
}

/** Why an ACPI operation failed, without the message texts. */
module AcpiErrors {
  datatype AcpiError =
    | RegionTooSmall
    | Misaligned
    | AddressOverflow
    | TableTooLarge
    | Truncated
    | PkgLengthTooLarge
    | BadNameSeg
    | BadNamePath
    | BadConfig
    | Drift
    | Read
    | Write
    | BadTable
    | NoRsdp
}

/**
  Byte strings: little-endian integers, byte sums modulo 256, and in-place
  patches of a fixed-length buffer.
 */
module Bytes {
  type byte = x: int | 0 <= x < 256
  type u32 = x: int | 0 <= x < 0x1_0000_0000
  type u64 = x: int | 0 <= x < 0x1_0000_0000_0000_0000

  const U32: nat := 0x1_0000_0000
  const U64: nat := 0x1_0000_0000_0000_0000

  // ----- little-endian integers -----

  function Pow256(n: nat): (r: nat)
    ensures r > 0
  {
    if n == 0 then 1 else 256 * Pow256(n - 1)
  }

  lemma Pow256Values()
    ensures Pow256(1) == 0x100 && Pow256(2) == 0x1_0000 && Pow256(4) == U32 && Pow256(8) == U64
  {
    assert Pow256(3) == 0x100_0000;
    assert Pow256(5) == 0x100 * U32;
    assert Pow256(6) == 0x1_0000 * U32;
    assert Pow256(7) == 0x100_0000 * U32;
  }

  /** The low `n` bytes of `v`, least significant first (`to_le_bytes()[..n]`). */
  function LE(n: nat, v: nat): (s: seq<byte>)
    ensures |s| == n
  {
    if n == 0 then [] else [v % 256] + LE(n - 1, v / 256)
  }

  /** `from_le_bytes`. */
  function FromLE(s: seq<byte>): (v: nat) {
    if s == [] then 0 else s[0] + 256 * FromLE(s[1..])
  }

  lemma {:induction false} FromLEOfLE(n: nat, v: nat)
    requires v < Pow256(n)
    ensures FromLE(LE(n, v)) == v
  {
    if n > 0 {
      assert v / 256 < Pow256(n - 1);
      FromLEOfLE(n - 1, v / 256);
      assert LE(n, v)[1..] == LE(n - 1, v / 256);
    }
  }

  lemma {:induction false} LEOfFromLE(s: seq<byte>)
    ensures FromLE(s) < Pow256(|s|)
    ensures LE(|s|, FromLE(s)) == s
  {
    if s != [] {
      LEOfFromLE(s[1..]);
      assert FromLE(s) % 256 == s[0] && FromLE(s) / 256 == FromLE(s[1..]);
    }
  }

  lemma LEInjective(n: nat, v: nat, w: nat)
    requires v < Pow256(n) && w < Pow256(n)
    requires LE(n, v) == LE(n, w)
    ensures v == w
  {
    FromLEOfLE(n, v);
    FromLEOfLE(n, w);
  }

  lemma FromLEInjective(a: seq<byte>, b: seq<byte>)
    requires |a| == |b| && FromLE(a) == FromLE(b)
    ensures a == b
  {
    hide FromLE, LE;
    LEOfFromLE(a);
    LEOfFromLE(b);
  }

  lemma {:induction false} LEZero(n: nat)
    ensures LE(n, 0) == Zeros(n)
  {
    if n > 0 {
      LEZero(n - 1);
    }
  }

  function U16At(s: seq<byte>, at: nat): (v: nat)
    requires at + 2 <= |s|
  {
    FromLE(s[at..at + 2])
  }

  function U32At(s: seq<byte>, at: nat): (v: nat)
    requires at + 4 <= |s|
  {
    FromLE(s[at..at + 4])
  }

  function U64At(s: seq<byte>, at: nat): (v: nat)
    requires at + 8 <= |s|
  {
    FromLE(s[at..at + 8])
  }

  // ----- text -----

  function AsciiBytes(s: string): (r: seq<byte>)
    requires forall i :: 0 <= i < |s| ==> s[i] < 128 as char
    ensures |r| == |s|
    ensures forall i :: 0 <= i < |s| ==> r[i] == s[i] as int
  {
    seq(|s|, i requires 0 <= i < |s| => s[i] as int)
  }

  function AsciiString(s: seq<byte>): (r: string)
    requires forall i :: 0 <= i < |s| ==> s[i] < 128
    ensures |r| == |s|
    ensures forall i :: 0 <= i < |s| ==> r[i] == s[i] as char
  {
    seq(|s|, i requires 0 <= i < |s| => s[i] as char)
  }

  lemma AsciiRoundTrip(s: string)
    requires forall i :: 0 <= i < |s| ==> s[i] < 128 as char
    ensures AsciiString(AsciiBytes(s)) == s
  {
  }

  // ----- sums -----

  function Sum(s: seq<byte>): (r: nat) {
    if s == [] then 0 else Sum(s[..|s| - 1]) + s[|s| - 1]
  }

  /** Sum of the bytes modulo 256 (a wrapping `u8` fold). */
  function ByteSum(s: seq<byte>): (r: byte) {
    Sum(s) % 256
  }

  /** The byte that brings a sum to zero: `0u8.wrapping_sub(byte_sum(s))`. */
  function Checksum(s: seq<byte>): (r: byte)
    ensures (Sum(s) + r) % 256 == 0
  {
    (256 - ByteSum(s)) % 256
  }

  lemma {:induction false} SumUpdate(s: seq<byte>, i: nat, b: byte)
    requires i < |s|
    ensures Sum(s[i := b]) == Sum(s) - s[i] + b
  {
    var last := |s| - 1;
    if i == last {
      assert s[i := b][..last] == s[..last];
    } else {
      SumUpdate(s[..last], i, b);
      assert s[i := b][..last] == s[..last][i := b];
    }
  }

  /** Storing the checksum over a zero checksum byte makes the whole sum zero. */
  lemma SealSumsToZero(s: seq<byte>, at: nat)
    requires at < |s| && s[at] == 0
    ensures ByteSum(s[at := Checksum(s)]) == 0
  {
    SumUpdate(s, at, Checksum(s));
  }

  /** At most one byte value at `at` brings the sum to zero. */
  lemma SealUnique(s: seq<byte>, at: nat, b: byte, c: byte)
    requires at < |s|
    requires ByteSum(s[at := b]) == 0 && ByteSum(s[at := c]) == 0
    ensures b == c
  {
    SumUpdate(s, at, b);
    SumUpdate(s, at, c);
    var r := Sum(s) - s[at];
    assert (r + b) % 256 == 0 && (r + c) % 256 == 0;
    ModDifference(r + b, r + c);
  }

  lemma ModDifference(x: int, y: int)
    requires x % 256 == 0 && y % 256 == 0 && -256 < x - y < 256
    ensures x == y
  {
  }

  // ----- buffers -----

  function Zeros(n: nat): (s: seq<byte>)
    ensures |s| == n
    ensures forall i :: 0 <= i < n ==> s[i] == 0
  {
    seq(n, _ => 0)
  }

  /** `copy_from_slice` of `b` into `s` at `at`. */
  function Put(s: seq<byte>, at: nat, b: seq<byte>): (r: seq<byte>)
    requires at + |b| <= |s|
    ensures |r| == |s|
    ensures forall i :: 0 <= i < |s| ==> r[i] == if at <= i < at + |b| then b[i - at] else s[i]
  {
    s[..at] + b + s[at + |b|..]
  }

  lemma PutRead(s: seq<byte>, at: nat, b: seq<byte>)
    requires at + |b| <= |s|
    ensures Put(s, at, b)[at..at + |b|] == b
  {
  }

  lemma PutElsewhere(s: seq<byte>, at: nat, b: seq<byte>, lo: nat, hi: nat)
    requires at + |b| <= |s| && lo <= hi <= |s|
    requires hi <= at || at + |b| <= lo
    ensures Put(s, at, b)[lo..hi] == s[lo..hi]
  {
  }

  lemma SubSlice(s: seq<byte>, lo: nat, hi: nat, a: nat, b: nat)
    requires lo <= hi <= |s| && a <= b <= hi - lo
    ensures s[lo..hi][a..b] == s[lo + a..lo + b]
  {
    var x, y := s[lo..hi][a..b], s[lo + a..lo + b];
    assert |x| == |y|;
    assert forall i :: 0 <= i < |x| ==> x[i] == s[lo..hi][a + i] == s[lo + a + i] == y[i];
  }

  // ----- concatenations -----

  lemma DropHead(h: seq<byte>, t: seq<byte>)
    ensures (h + t)[|h|..] == t
    ensures (h + t)[..|h|] == h
  {
  }

  lemma Associate<T>(a: seq<T>, b: seq<T>, c: seq<T>)
    ensures (a + b) + c == a + (b + c)
  {
  }

  lemma DropHead3(h: seq<byte>, a: seq<byte>, b: seq<byte>, c: seq<byte>)
    ensures (h + a + b + c)[|h|..] == a + b + c == a + (b + c)
    ensures (h + a + b + c)[|h| + |a|..] == b + c
    ensures (h + a + b + c)[..|h|] == h
  {
    assert h + a + b + c == h + (a + b + c);
    DropHead(h, a + b + c);
    assert h + a + b + c == (h + a) + (b + c);
    DropHead(h + a, b + c);
  }

  lemma Regroup(a: seq<byte>, b: seq<byte>, c: seq<byte>, d: seq<byte>)
    ensures a + b + c + d == a + (b + c) + d
  {
  }

  lemma DropHead4(h: seq<byte>, a: seq<byte>, b: seq<byte>, c: seq<byte>, d: seq<byte>)
    ensures (h + a + b + c + d)[|h|..] == a + b + c + d
    ensures (h + a + b + c + d)[..|h|] == h
  {
    assert h + a + b + c + d == h + (a + b + c + d);
    DropHead(h, a + b + c + d);
  }

  function Flatten(parts: seq<seq<byte>>): (s: seq<byte>) {
    if parts == [] then [] else parts[0] + Flatten(parts[1..])
  }

  lemma {:induction false} FlattenAppend(parts: seq<seq<byte>>, last: seq<byte>)
    ensures Flatten(parts + [last]) == Flatten(parts) + last
  {
    if parts == [] {
      assert parts + [last] == [last] && [last][1..] == [];
    } else {
      FlattenAppend(parts[1..], last);
      assert (parts + [last])[1..] == parts[1..] + [last];
    }
  }

  lemma {:induction false} FlattenBound(parts: seq<seq<byte>>, each: nat)
    requires forall i :: 0 <= i < |parts| ==> |parts[i]| <= each
    ensures |Flatten(parts)| <= |parts| * each
  {
    if parts != [] {
      FlattenBound(parts[1..], each);
      assert |parts| * each == each + (|parts| - 1) * each;
    }
  }
}
