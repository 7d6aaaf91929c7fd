/** The encoder's loops: `pkg_length` pushes bytes, `name_string` strips prefixes. */
module AmlLoops {
  import opened Results
  import opened AcpiErrors
  import opened Bytes
  import opened Aml

  /** The next byte of a little-endian integer is a shift away. */
  lemma NextByte(v: nat, i: nat)
    requires i < 3
    ensures LE(i + 1, v) == LE(i, v) + [v / Pow256(i) % 256]
  {
    assert Pow256(1) == 0x100 && Pow256(2) == 0x1_0000;
    assert v / 256 / 256 == v / 0x1_0000;
    assert LE(1, v) == [v % 256];
    assert LE(2, v) == [v % 256] + LE(1, v / 256);
    assert LE(3, v) == [v % 256] + LE(2, v / 256);
  }

  lemma ShiftedBy(total: nat, i: nat)
    requires i < 3
    ensures total / (16 * Pow256(i)) == total / 16 / Pow256(i)
  {
    assert Pow256(1) == 0x100 && Pow256(2) == 0x1_0000;
  }

  function Limit(follow: nat): (r: nat)
    requires follow <= 3
    ensures r == PkgLimit(follow)
  {
    assert Pow256(1) == 0x100 && Pow256(2) == 0x1_0000 && Pow256(3) == 0x100_0000;
    if follow == 0 then 0x3f else 16 * Pow256(follow) - 1
  }

  method BuildPkgLength(content: nat) returns (r: Encoded)
    ensures r == PkgLength(content)
  {
    hide LE, Pow256;
    for follow := 0 to 4
      invariant PkgLength(content) == PkgLengthFrom(content, follow)
    {
      var total := content + 1 + follow;
      if total > Limit(follow) {
        continue;
      }
      if follow == 0 {
        return Ok([total]);
      }
      var out: seq<byte> := [64 * follow + total % 16];
      NoBytes(total / 16);
      for index := 0 to follow
        invariant out == [64 * follow + total % 16] + LE(index, total / 16)
      {
        NextByte(total / 16, index);
        ShiftedBy(total, index);
        out := out + [total / (16 * Pow256(index)) % 256];
      }
      return Ok(out);
    }
    return Err(PkgLengthTooLarge);
  }

  lemma NoBytes(v: nat)
    ensures LE(0, v) == []
  {
  }

  lemma CaretsStep(s: string, n: nat)
    requires n < |s| && s[n] == '^' && forall i :: 0 <= i < n ==> s[i] == '^'
    ensures n < Carets(s)
  {
    hide Carets;
  }

  method BuildNameString(path: string) returns (r: Encoded)
    ensures r == NameString(path)
  {
    hide Carets, SplitDots, PadAll, SegBytes;
    var out: seq<byte> := [];
    var rest := path;
    var root := rest != [] && rest[0] == '\\';
    if root {
      out := [ROOT_CHAR];
      rest := rest[1..];
    } else {
      ghost var n := 0;
      while rest != [] && rest[0] == '^'
        invariant n <= Carets(path) && rest == path[n..] && out == seq(n, _ => PARENT_PREFIX_CHAR)
        decreases |rest|
      {
        out := out + [PARENT_PREFIX_CHAR];
        assert out == seq(n + 1, _ => PARENT_PREFIX_CHAR);
        CaretsStep(path, n);
        rest := rest[1..];
        n := n + 1;
      }
      assert n == Carets(path);
    }
    ghost var parents := if root then 0 else Carets(path);
    assert out == PrefixBytes(NamePath(root, parents, []));
    if rest == [] {
      if out == [] {
        return Err(BadNamePath);
      }
      NoSegments();
      assert out + [NULL_NAME] + [] == out + [NULL_NAME];
      return Ok(out + [NULL_NAME]);
    }
    var segs :- PadAll(SplitDots(rest));
    if |segs| > 255 {
      return Err(BadNamePath);
    }
    SegmentsFit(SplitDots(rest), segs);
    ghost var prefix := out;
    if |segs| == 2 {
      out := out + [DUAL_NAME_PREFIX];
    } else if |segs| != 1 {
      out := out + [MULTI_NAME_PREFIX, |segs|];
    }
    assert out == prefix + SegCountBytes(|segs|);
    return Ok(out + SegBytes(segs));
  }

  lemma SegmentsFit(raw: seq<string>, segs: seq<string>)
    requires PadAll(raw) == Ok(segs) && raw != []
    ensures segs != [] && forall i :: 0 <= i < |segs| ==> |segs[i]| == 4 && IsNameSeg(segs[i])
  {
    hide PadAll;
    forall i | 0 <= i < |segs| ensures IsNameSeg(segs[i]) {
      assert segs[i] == Padded(raw[i]);
    }
  }

  lemma NoSegments()
    ensures SegBytes([]) == []
  {
  }
}
