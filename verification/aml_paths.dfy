/** What a name path means, apart from the parser: a prefix, then segments joined by dots. */
module AmlPaths {
  import opened Results
  import opened AcpiErrors
  import opened Bytes
  import opened Aml
  import opened AmlTree

  // ----- dots -----

  function JoinDots(segs: seq<string>): (r: string) {
    if segs == [] then "" else if |segs| == 1 then segs[0] else segs[0] + "." + JoinDots(segs[1..])
  }

  predicate NoDot(s: string) {
    '.' !in s
  }

  /** Splitting at dots and joining again changes nothing. */
  lemma {:induction false} JoinOfSplit(s: string)
    ensures JoinDots(SplitDots(s)) == s
    ensures forall i :: 0 <= i < |SplitDots(s)| ==> NoDot(SplitDots(s)[i])
  {
    if s != [] {
      JoinOfSplit(s[1..]);
      var tail := SplitDots(s[1..]);
      if s[0] == '.' {
        assert ([""] + tail)[1..] == tail;
        assert "." + s[1..] == s;
      } else {
        JoinHead(s[0], tail);
        assert [s[0]] + s[1..] == s;
      }
    }
  }

  lemma JoinHead(c: char, tail: seq<string>)
    requires tail != []
    ensures JoinDots([[c] + tail[0]] + tail[1..]) == [c] + JoinDots(tail)
  {
    var r := [[c] + tail[0]] + tail[1..];
    assert r[1..] == tail[1..];
    if |tail| > 1 {
      assert [c] + tail[0] + "." + JoinDots(tail[1..]) == [c] + (tail[0] + "." + JoinDots(tail[1..]));
    }
  }

  lemma {:induction false} SplitWithDot(head: string, rest: string)
    requires NoDot(head)
    ensures SplitDots(head + "." + rest) == [head] + SplitDots(rest)
  {
    var s := head + "." + rest;
    if head == "" {
      assert s[0] == '.' && s[1..] == rest;
    } else {
      assert s[0] == head[0] && head[0] in head && s[1..] == head[1..] + "." + rest;
      SplitWithDot(head[1..], rest);
      assert [head[0]] + head[1..] == head;
    }
  }

  /** Joining segments without dots and splitting again gives them back. */
  lemma {:induction false} SplitOfJoin(segs: seq<string>)
    requires segs != [] && forall i :: 0 <= i < |segs| ==> NoDot(segs[i])
    ensures SplitDots(JoinDots(segs)) == segs
  {
    if |segs| == 1 {
      NoDots(segs[0]);
    } else {
      SplitOfJoin(segs[1..]);
      SplitWithDot(segs[0], JoinDots(segs[1..]));
    }
  }

  // ----- prefixes -----

  function PrefixText(root: bool, parents: nat): (r: string) {
    if root then "\\" else seq(parents, _ => '^')
  }

  lemma {:induction false} CaretsOf(n: nat, rest: string)
    requires rest == "" || rest[0] != '^'
    ensures Carets(PrefixText(false, n) + rest) == n
  {
    var s := PrefixText(false, n) + rest;
    if n > 0 {
      assert s[0] == '^' && s[1..] == PrefixText(false, n - 1) + rest;
      CaretsOf(n - 1, rest);
    }
  }

  lemma CaretsSplit(path: string)
    ensures path == PrefixText(false, Carets(path)) + path[Carets(path)..]
  {
    hide Carets;
  }

  // ----- the grammar -----

  /** `path` is the prefix and the segments of `n`, each written with or without its padding. */
  ghost predicate Spells(path: string, n: NamePath, raw: seq<string>) {
    && path == PrefixText(n.root, n.parents) + JoinDots(raw)
    && |raw| == |n.segs|
    && forall i :: 0 <= i < |raw| ==> IsNameSeg(raw[i]) && n.segs[i] == Padded(raw[i])
  }

  lemma SegIsPlain(seg: string)
    requires IsNameSeg(seg)
    ensures NoDot(seg) && seg != "" && seg[0] != '^' && seg[0] != '\\'
  {
    assert forall i :: 0 <= i < |seg| ==> IsNameChar(seg[i]);
  }

  lemma JoinIsPlain(raw: seq<string>)
    requires raw != [] && forall i :: 0 <= i < |raw| ==> IsNameSeg(raw[i])
    ensures JoinDots(raw) != "" && JoinDots(raw)[0] != '^' && JoinDots(raw)[0] != '\\'
    ensures SplitDots(JoinDots(raw)) == raw
  {
    hide IsNameSeg, SplitDots;
    forall i | 0 <= i < |raw| ensures NoDot(raw[i]) && raw[i] != "" && raw[i][0] != '^' && raw[i][0] != '\\' {
      SegIsPlain(raw[i]);
    }
    SplitOfJoin(raw);
    assert JoinDots(raw)[0] == raw[0][0];
  }

  lemma PadsAre(raw: seq<string>, segs: seq<string>)
    requires |raw| == |segs| && forall i :: 0 <= i < |raw| ==> IsNameSeg(raw[i]) && segs[i] == Padded(raw[i])
    ensures PadAll(raw) == Ok(segs)
  {
    hide PadAll, IsNameChar, IsLead, Padded;
    assert PadAll(raw).value == segs;
  }

  /** What spells a name parses as it. */
  lemma SpelledParses(path: string, n: NamePath, raw: seq<string>)
    requires WellFormedName(n) && Spells(path, n, raw)
    ensures ParsePath(path) == Ok(n)
  {
    hide IsNameSeg, SplitDots, PadAll, JoinDots, Padded, Carets;
    var rest := JoinDots(raw);
    if raw == [] {
      assert rest == "" by { EmptyJoin(); }
    } else {
      JoinIsPlain(raw);
      PadsAre(raw, n.segs);
    }
    if n.root {
      assert path[0] == '\\' && path[1..] == rest;
    } else {
      CaretsOf(n.parents, rest);
      assert path[n.parents..] == rest;
      assert n.parents > 0 ==> path[0] == '^';
      assert n.parents == 0 ==> path == rest;
    }
  }

  lemma EmptyJoin()
    ensures JoinDots([]) == ""
  {
  }

  /** A path that parses spells its name. */
  lemma ParsedSpells(path: string) returns (raw: seq<string>)
    requires ParsePath(path).Ok?
    ensures Spells(path, ParsePath(path).value, raw)
  {
    hide IsNameSeg, SplitDots, PadAll, JoinDots, Padded, Carets, PrefixText;
    var n := ParsePath(path).value;
    var rest := if n.root then path[1..] else path[n.parents..];
    PrefixIs(path, n.root, n.parents);
    if rest == [] {
      raw := [];
      EmptyJoin();
    } else {
      raw := SplitDots(rest);
      JoinOfSplit(rest);
    }
  }

  lemma PrefixIs(path: string, root: bool, parents: nat)
    requires root == (path != [] && path[0] == '\\') && parents == if root then 0 else Carets(path)
    ensures path == PrefixText(root, parents) + if root then path[1..] else path[parents..]
  {
    hide Carets;
    if !root {
      CaretsSplit(path);
    }
  }

  /** A path names exactly the paths it spells: the parser accepts and returns nothing else. */
  lemma PathGrammar(path: string, n: NamePath)
    ensures ParsePath(path) == Ok(n) <==> WellFormedName(n) && exists raw :: Spells(path, n, raw)
  {
    hide Spells, ParsePath, WellFormedName;
    if ParsePath(path) == Ok(n) {
      var raw := ParsedSpells(path);
      assert Spells(path, n, raw);
    }
    if raw :| WellFormedName(n) && Spells(path, n, raw) {
      SpelledParses(path, n, raw);
    }
  }

  // ----- which paths are the same name -----

  /** Without trailing `_`. */
  function Trimmed(seg: string): (r: string)
    ensures |r| <= |seg| && r == seg[..|r|]
    ensures forall i :: |r| <= i < |seg| ==> seg[i] == '_'
    ensures r == "" || r[|r| - 1] != '_'
  {
    if seg != "" && seg[|seg| - 1] == '_' then Trimmed(seg[..|seg| - 1]) else seg
  }

  lemma TrimmedDecides(a: string, b: string)
    requires |a| <= 4 && |b| <= 4
    ensures Padded(a) == Padded(b) <==> Trimmed(a) == Trimmed(b)
  {
    hide Trimmed, Padded;
    var x, y := Trimmed(a), Trimmed(b);
    if Padded(a) == Padded(b) {
      assert forall i :: 0 <= i < 4 ==>
        (if i < |a| then a[i] else '_') == Padded(a)[i] == (if i < |b| then b[i] else '_');
      assert |x| == |y|;
    }
    if x == y {
      assert forall i :: 0 <= i < 4 ==> Padded(a)[i] == (if i < |x| then x[i] else '_');
      assert forall i :: 0 <= i < 4 ==> Padded(b)[i] == (if i < |y| then y[i] else '_');
    }
  }

  /** The same prefix, and segments equal up to trailing `_`. */
  ghost predicate Alike(p: string, q: string, root: bool, parents: nat, a: seq<string>, b: seq<string>) {
    && p == PrefixText(root, parents) + JoinDots(a)
    && q == PrefixText(root, parents) + JoinDots(b)
    && (root ==> parents == 0)
    && |a| == |b|
    && forall i :: 0 <= i < |a| ==> IsNameSeg(a[i]) && IsNameSeg(b[i]) && Trimmed(a[i]) == Trimmed(b[i])
  }

  lemma PaddedAlike(a: seq<string>, b: seq<string>, i: nat)
    requires i < |a| == |b| && IsNameSeg(a[i]) && IsNameSeg(b[i])
    ensures Padded(a[i]) == Padded(b[i]) <==> Trimmed(a[i]) == Trimmed(b[i])
  {
    hide Trimmed, Padded;
    TrimmedDecides(a[i], b[i]);
  }

  lemma AlikeParses(p: string, q: string, root: bool, parents: nat, a: seq<string>, b: seq<string>)
    requires ParsePath(p).Ok? && Alike(p, q, root, parents, a, b)
    ensures ParsePath(q) == ParsePath(p)
  {
    hide IsNameChar, IsLead, JoinDots, Padded, Trimmed, PrefixText, ParsePath;
    var raw := ParsedSpells(p);
    var n := ParsePath(p).value;
    SameSpelling(p, n, raw, root, parents, a);
    forall i | 0 <= i < |b| ensures n.segs[i] == Padded(b[i]) {
      PaddedAlike(a, b, i);
    }
    SpelledParses(q, n, b);
  }

  /** A path is spelled in one way. */
  lemma SameSpelling(p: string, n: NamePath, raw: seq<string>, root: bool, parents: nat, a: seq<string>)
    requires WellFormedName(n) && Spells(p, n, raw) && p == PrefixText(root, parents) + JoinDots(a)
             && (root ==> parents == 0)
    requires forall i :: 0 <= i < |a| ==> IsNameSeg(a[i])
    ensures n.root == root && n.parents == parents && raw == a
  {
    hide IsNameSeg, SplitDots, JoinDots, Padded, Carets;
    EmptyJoin();
    if raw != [] {
      JoinIsPlain(raw);
    }
    if a != [] {
      JoinIsPlain(a);
    }
    var x, y := JoinDots(raw), JoinDots(a);
    if !root {
      CaretsOf(parents, y);
    }
    if !n.root {
      CaretsOf(n.parents, x);
    }
    assert n.root ==> p[0] == '\\';
    assert root ==> p[0] == '\\';
    assert p[|PrefixText(root, parents)|..] == y && p[|PrefixText(n.root, n.parents)|..] == x;
  }

  lemma ParsedAlike(p: string, q: string)
    requires ParsePath(p).Ok? && ParsePath(p) == ParsePath(q)
    ensures exists root, parents, a, b :: Alike(p, q, root, parents, a, b)
  {
    hide IsNameSeg, JoinDots, Padded, Trimmed, PrefixText, ParsePath;
    var a := ParsedSpells(p);
    var b := ParsedSpells(q);
    var n := ParsePath(p).value;
    forall i | 0 <= i < |a| ensures Trimmed(a[i]) == Trimmed(b[i]) {
      PaddedAlike(a, b, i);
    }
    assert Alike(p, q, n.root, n.parents, a, b);
  }

  /** Two paths encode alike exactly when they are equal up to `_` padding. */
  lemma NameStringsAlike(p: string, q: string)
    requires NameString(p).Ok?
    ensures NameString(p) == NameString(q) <==> exists root, parents, a, b :: Alike(p, q, root, parents, a, b)
  {
    hide Alike, ParsePath, EncodeName, DecodeName;
    if NameString(p) == NameString(q) {
      NameStringRoundTrip(p, []);
      NameStringRoundTrip(q, []);
      ParsedAlike(p, q);
    }
    if root, parents, a, b :| Alike(p, q, root, parents, a, b) {
      AlikeParses(p, q, root, parents, a, b);
    }
  }
}
