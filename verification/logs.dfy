/** Which log records to show. */
module LogFormat {
  import opened Results

  datatype Level = Trace | Debug | Info | Warn | Error

  function Rank(l: Level): (r: nat) {
    match l
    case Trace => 0
    case Debug => 1
    case Info => 2
    case Warn => 3
    case Error => 4
  }

  datatype Record = Record(level: Level, target: string)

  datatype Filter = Filter(level: Option<Level>, targets: seq<string>)

  predicate IsEmpty(f: Filter) {
    f.level.None? && f.targets == []
  }

  /** `target` is `prefix` or goes on after it with `::`. */
  predicate Under(target: string, prefix: string) {
    target == prefix || (prefix <= target && "::" <= target[|prefix|..])
  }

  predicate TargetMatches(target: string, want: string) {
    Under(target, want) || (!("ternvale::" <= want) && Under(target, "ternvale::" + want))
  }

  predicate Accepts(f: Filter, r: Record) {
    && !(f.level.Some? && Rank(r.level) < Rank(f.level.value))
    && (f.targets == [] || exists i :: 0 <= i < |f.targets| && TargetMatches(r.target, f.targets[i]))
  }

  // ----- what a target name selects -----

  /** Position of the first `::`, or the length where there is none. */
  function FirstSeparator(s: string): (k: nat)
    ensures k <= |s| && (k < |s| ==> k + 2 <= |s| && s[k..k + 2] == "::")
  {
    if s == "" || "::" <= s then 0 else 1 + FirstSeparator(s[1..])
  }

  /** The path's parts between `::`. */
  function Components(s: string): (r: seq<string>)
    ensures r != []
  {
    var k := FirstSeparator(s);
    if k == |s| then [s] else [s[..k]] + Components(s[k + 2..])
  }

  predicate NoColon(s: string) {
    ':' !in s
  }

  /** A name whose components hold no colon, as module paths do. */
  predicate IsPath(s: string) {
    forall i :: 0 <= i < |Components(s)| ==> NoColon(Components(s)[i])
  }

  lemma {:induction false} FirstSeparatorOf(head: string, tail: string)
    requires NoColon(head)
    ensures FirstSeparator(head + "::" + tail) == |head|
    ensures FirstSeparator(head) == |head|
  {
    var s := head + "::" + tail;
    if head == "" {
      assert s == "::" + tail;
    } else {
      assert s[0] == head[0] && head[0] in head;
      FirstSeparatorOf(head[1..], tail);
      assert s[1..] == head[1..] + "::" + tail;
    }
  }

  lemma {:induction false} JoinComponents(s: string)
    ensures |Components(s)| == 1 ==> s == Components(s)[0]
    ensures |Components(s)| > 1 ==>
              exists rest :: s == Components(s)[0] + "::" + rest && Components(rest) == Components(s)[1..]
  {
    var k := FirstSeparator(s);
    if k < |s| {
      assert s == s[..k] + s[k..] && s[k..] == s[k..k + 2] + s[k + 2..];
      assert s == s[..k] + "::" + s[k + 2..];
      assert Components(s)[1..] == Components(s[k + 2..]);
    }
  }

  lemma TailIsPath(s: string, rest: string)
    requires IsPath(s) && |Components(s)| > 1 && Components(rest) == Components(s)[1..]
    ensures IsPath(rest) && NoColon(Components(s)[0])
  {
    forall i | 0 <= i < |Components(rest)| ensures NoColon(Components(rest)[i]) {
      assert Components(rest)[i] == Components(s)[i + 1];
    }
  }

  /** Cancelling a common front. */
  lemma UnderCancels(front: string, target: string, prefix: string)
    ensures Under(front + target, front + prefix) <==> Under(target, prefix)
  {
    var n := |front|;
    assert (front + target)[n..] == target && (front + prefix)[n..] == prefix;
    if prefix <= target {
      assert front + prefix <= front + target;
      assert (front + target)[|front + prefix|..] == target[|prefix|..];
    }
    if front + prefix <= front + target {
      assert prefix == (front + prefix)[n..] && prefix == (front + target)[n..|front + prefix|] == target[..|prefix|];
    }
  }

  /** Where the first colon is decides the first component. */
  lemma SameFirst(a: string, x: string, b: string, y: string)
    requires NoColon(a) && NoColon(b) && a + "::" + x == b + "::" + y
    ensures a == b && x == y
  {
    FirstSeparatorOf(a, x);
    FirstSeparatorOf(b, y);
    var s := a + "::" + x;
    assert s[..|a|] == a && s[..|b|] == b && s[|a| + 2..] == x && s[|b| + 2..] == y;
  }

  /** Nothing is strictly under anything without a colon in it. */
  lemma UnderWithin(target: string, prefix: string)
    requires NoColon(target)
    ensures Under(target, prefix) <==> target == prefix
  {
    assert forall i :: 0 <= i < |target| ==> target[i] != ':';
    if |prefix| < |target| {
      assert target[|prefix|..][0] == target[|prefix|];
    }
  }

  lemma UnderFirst(c: string, rest: string, prefix: string)
    requires NoColon(c) && NoColon(prefix)
    ensures Under(c + "::" + rest, prefix) <==> c == prefix
  {
    var target := c + "::" + rest;
    assert target[|c|] == ':';
    assert forall i :: 0 <= i < |prefix| ==> prefix[i] != ':';
    if prefix <= target && "::" <= target[|prefix|..] {
      var after := target[|prefix| + 2..];
      assert target == prefix + "::" + after;
      SameFirst(c, rest, prefix, after);
    }
    if c == prefix {
      assert target[|prefix|..] == "::" + rest;
    }
  }

  lemma UnderOne(target: string, prefix: string)
    requires IsPath(target) && NoColon(prefix)
    ensures Under(target, prefix) <==> Components(target)[0] == prefix
  {
    hide Under, Components;
    JoinComponents(target);
    var c := Components(target)[0];
    assert NoColon(c);
    if |Components(target)| == 1 {
      UnderWithin(target, prefix);
    } else {
      var rest :| target == c + "::" + rest && Components(rest) == Components(target)[1..];
      UnderFirst(c, rest, prefix);
    }
  }

  /** A target is under a prefix exactly when the prefix's components begin the target's. */
  lemma {:induction false} UnderIsByComponent(target: string, prefix: string)
    requires IsPath(target) && IsPath(prefix)
    ensures Under(target, prefix) <==> Components(prefix) <= Components(target)
    decreases |Components(prefix)|
  {
    hide Under, Components;
    var ts, ps := Components(target), Components(prefix);
    JoinComponents(prefix);
    JoinComponents(target);
    assert NoColon(ps[0]) && NoColon(ts[0]);
    if |ps| == 1 {
      UnderOne(target, prefix);
    } else {
      var p' :| prefix == ps[0] + "::" + p' && Components(p') == ps[1..];
      if |ts| == 1 {
        UnderWithin(target, prefix);
        assert prefix[|ps[0]|] == ':' && prefix[|ps[0]|] in prefix;
      } else {
        var t' :| target == ts[0] + "::" + t' && Components(t') == ts[1..];
        TailIsPath(prefix, p');
        TailIsPath(target, t');
        UnderLonger(ts[0], t', ps[0], p');
        UnderIsByComponent(t', p');
        PrefixCons(ps, ts);
      }
    }
  }

  lemma PrefixCons(ps: seq<string>, ts: seq<string>)
    requires ps != [] && ts != []
    ensures ps <= ts <==> ps[0] == ts[0] && ps[1..] <= ts[1..]
  {
    if ps[0] == ts[0] && ps[1..] <= ts[1..] {
      assert forall i :: 0 < i < |ps| ==> ps[i] == ps[1..][i - 1] == ts[1..][i - 1] == ts[i];
    }
    if ps <= ts {
      assert forall i :: 0 <= i < |ps| - 1 ==> ps[1..][i] == ps[i + 1] == ts[i + 1] == ts[1..][i];
    }
  }

  lemma UnderLonger(t: string, t': string, p: string, p': string)
    requires NoColon(t) && NoColon(p)
    ensures Under(t + "::" + t', p + "::" + p') <==> t == p && Under(t', p')
  {
    var target, prefix := t + "::" + t', p + "::" + p';
    if t == p {
      UnderCancels(t + "::", t', p');
    } else if prefix <= target {
      var after := target[|p| + 2..];
      assert target[..|p| + 2] == prefix[..|p| + 2] == p + "::";
      assert target == p + "::" + after;
      SameFirst(t, t', p, after);
    }
  }

  const ROOT: string := "ternvale"

  /** Which targets a wanted path selects: those below it, or below it inside `ternvale`. */
  lemma MatchesByComponent(target: string, want: string)
    requires IsPath(target) && IsPath(want)
    ensures TargetMatches(target, want) <==>
              || Components(want) <= Components(target)
              || (Components(want)[0] != ROOT && [ROOT] + Components(want) <= Components(target))
              || (want == ROOT && [ROOT, ROOT] <= Components(target))
  {
    hide Under, Components;
    UnderIsByComponent(target, want);
    RootedComponents(want);
    UnderIsByComponent(target, "ternvale::" + want);
    RootedWant(want);
  }

  lemma RootedComponents(want: string)
    requires IsPath(want)
    ensures Components("ternvale::" + want) == [ROOT] + Components(want) && IsPath("ternvale::" + want)
  {
    hide FirstSeparator;
    var s := "ternvale::" + want;
    assert s == ROOT + "::" + want;
    RootIsOne();
    FirstSeparatorOf(ROOT, want);
    assert s[..8] == ROOT && s[10..] == want;
    assert Components(s) == [ROOT] + Components(want);
  }

  lemma RootedWant(want: string)
    requires IsPath(want)
    ensures "ternvale::" <= want <==> Components(want)[0] == ROOT && want != ROOT
    ensures want == ROOT ==> Components(want) == [ROOT]
  {
    hide Components, Under;
    JoinComponents(want);
    RootIsOne();
    var cs := Components(want);
    assert NoColon(cs[0]);
    if |cs| == 1 {
      assert forall i :: 0 <= i < |want| ==> want[i] != ':';
      assert "ternvale::"[8] == ':';
    } else {
      var rest :| want == cs[0] + "::" + rest && Components(rest) == cs[1..];
      assert want[|cs[0]|] == ':' && want[|cs[0]|] in want;
      if "ternvale::" <= want {
        var after := want[10..];
        assert want == ROOT + "::" + after;
        SameFirst(cs[0], rest, ROOT, after);
      }
      if cs[0] == ROOT {
        assert want == "ternvale::" + rest;
      }
    }
  }

  lemma RootIsOne()
    ensures NoColon(ROOT) && Components(ROOT) == [ROOT]
  {
    FirstSeparatorOf(ROOT, "");
  }

  /** `g` asks for no more than `f`: a level no higher, and every target `f` wants. */
  ghost predicate Wider(g: Filter, f: Filter) {
    && (g.level.None? || (f.level.Some? && Rank(g.level.value) <= Rank(f.level.value)))
    && (g.targets == [] || (f.targets != [] && forall t :: t in f.targets ==> t in g.targets))
  }

  /** A wider filter never hides a record. */
  lemma WiderShowsMore(f: Filter, g: Filter, r: Record)
    requires Wider(g, f) && Accepts(f, r)
    ensures Accepts(g, r)
  {
    hide TargetMatches;
    if g.targets != [] {
      var i :| 0 <= i < |f.targets| && TargetMatches(r.target, f.targets[i]);
      assert f.targets[i] in g.targets;
      var j :| 0 <= j < |g.targets| && g.targets[j] == f.targets[i];
    }
  }
}

/** Printing and following a log file. */
module LogTail {
  import opened Results
  import opened Bytes
  import opened LogFormat

  const NEWLINE: byte := 10

  // ----- lines -----

  predicate HasNewline(s: seq<byte>) {
    NEWLINE in s
  }

  function FirstNewline(s: seq<byte>): (k: nat)
    requires HasNewline(s)
    ensures k < |s| && s[k] == NEWLINE && NEWLINE !in s[..k]
  {
    if s[0] == NEWLINE then 0 else 1 + FirstNewline(s[1..])
  }

  /** The length of the part that ends in the last newline. */
  function CompleteLen(s: seq<byte>): (n: nat)
    ensures n <= |s| && (n > 0 ==> s[n - 1] == NEWLINE) && NEWLINE !in s[n..]
    ensures n > 0 <==> HasNewline(s)
  {
    if s == [] then 0 else if s[|s| - 1] == NEWLINE then |s| else CompleteLen(s[..|s| - 1])
  }

  function Complete(s: seq<byte>): (r: seq<byte>) {
    s[..CompleteLen(s)]
  }

  function Rest(s: seq<byte>): (r: seq<byte>)
    ensures !HasNewline(r)
  {
    s[CompleteLen(s)..]
  }

  /** Where the first line ends: after its newline, or at the end. */
  function LineEnd(s: seq<byte>): (n: nat)
    requires s != []
    ensures 0 < n <= |s|
  {
    if HasNewline(s) then FirstNewline(s) + 1 else |s|
  }

  /** `split_inclusive`: each line with its newline; the last may lack one. */
  function Lines(s: seq<byte>): (r: seq<seq<byte>>) {
    if s == [] then [] else [s[..LineEnd(s)]] + Lines(s[LineEnd(s)..])
  }

  /** Cutting into lines loses nothing. */
  lemma {:induction false} LinesJoin(s: seq<byte>)
    ensures Flatten(Lines(s)) == s
  {
    hide LineEnd;
    if s != [] {
      var n, r := LineEnd(s), Lines(s);
      LinesJoin(s[n..]);
      assert r[0] == s[..n] && r[1..] == Lines(s[n..]) && s[..n] + s[n..] == s;
    }
  }

  lemma FirstNewlineOf(s: seq<byte>, more: seq<byte>)
    requires HasNewline(s)
    ensures HasNewline(s + more) && FirstNewline(s + more) == FirstNewline(s)
  {
    var k, l := FirstNewline(s), FirstNewline(s + more);
    assert (s + more)[k] == NEWLINE;
    assert forall i :: 0 <= i < k ==> s[..k][i] == (s + more)[i];
    assert forall i :: 0 <= i < l ==> (s + more)[..l][i] == (s + more)[i];
  }

  lemma LineEndOf(a: seq<byte>, b: seq<byte>)
    requires a != [] && a[|a| - 1] == NEWLINE
    ensures LineEnd(a + b) == LineEnd(a)
    ensures (a + b)[..LineEnd(a)] == a[..LineEnd(a)] && (a + b)[LineEnd(a)..] == a[LineEnd(a)..] + b
    ensures var rest := a[LineEnd(a)..]; rest == [] || rest[|rest| - 1] == NEWLINE
  {
    hide FirstNewline;
    FirstNewlineOf(a, b);
  }

  /** Lines of whole lines and what follows them. */
  lemma {:induction false} LinesAppend(a: seq<byte>, b: seq<byte>)
    requires a == [] || a[|a| - 1] == NEWLINE
    ensures Lines(a + b) == Lines(a) + Lines(b)
    decreases |a|
  {
    hide LineEnd;
    if a == [] {
      assert a + b == b;
    } else {
      LineEndOf(a, b);
      var n := LineEnd(a);
      LinesAppend(a[n..], b);
      Associate([a[..n]], Lines(a[n..]), Lines(b));
    }
  }

  /** The last newline is where it is. */
  lemma CompleteUnique(s: seq<byte>, m: nat)
    requires m <= |s| && (m > 0 ==> s[m - 1] == NEWLINE) && forall i :: m <= i < |s| ==> s[i] != NEWLINE
    ensures CompleteLen(s) == m
  {
    hide CompleteLen;
    var n := CompleteLen(s);
    assert forall i :: n <= i < |s| ==> s[n..][i - n] == s[i];
  }

  /** Whole lines in front only shift it. */
  lemma CompleteOf(a: seq<byte>, b: seq<byte>)
    requires a == [] || a[|a| - 1] == NEWLINE
    ensures CompleteLen(a + b) == |a| + CompleteLen(b)
  {
    hide CompleteLen;
    var n := CompleteLen(b);
    assert forall i :: n <= i < |b| ==> b[n..][i - n] == b[i];
    CompleteUnique(a + b, |a| + n);
  }

  // ----- showing lines -----

  /** The filter and the text functions: lossy decoding, header parsing and escape stripping. */
  datatype View = View(filter: Filter, decode: seq<byte> -> string, parse: string -> Option<Record>,
    strip: string -> string, color: bool)

  function TrimEnd(s: string): (r: string)
    ensures r <= s && (r == "" || (r[|r| - 1] != '\n' && r[|r| - 1] != '\r'))
  {
    if s != "" && (s[|s| - 1] == '\n' || s[|s| - 1] == '\r') then TrimEnd(s[..|s| - 1]) else s
  }

  function LineText(v: View, raw: seq<byte>): (r: string) {
    TrimEnd(v.decode(raw))
  }

  function Shown(v: View, line: string): (r: string) {
    if v.color then line else v.strip(line)
  }

  /** The decision for a line: its own header's, or the one before. */
  function Decides(v: View, showing: bool, line: string): (r: bool) {
    match v.parse(line)
    case Some(record) => Accepts(v.filter, record)
    case None => showing
  }

  function Emitted(v: View, showing: bool, raw: seq<byte>): (r: seq<string>) {
    if Decides(v, showing, LineText(v, raw)) then [Shown(v, LineText(v, raw))] else []
  }

  function ShowingAfter(v: View, showing: bool, lines: seq<seq<byte>>): (r: bool)
    decreases |lines|
  {
    if lines == [] then showing else ShowingAfter(v, Decides(v, showing, LineText(v, lines[0])), lines[1..])
  }

  function Output(v: View, showing: bool, lines: seq<seq<byte>>): (r: seq<string>)
    decreases |lines|
  {
    if lines == [] then []
    else Emitted(v, showing, lines[0]) + Output(v, Decides(v, showing, LineText(v, lines[0])), lines[1..])
  }

  lemma {:induction false} OutputAppend(v: View, showing: bool, a: seq<seq<byte>>, b: seq<seq<byte>>)
    ensures Output(v, showing, a + b) == Output(v, showing, a) + Output(v, ShowingAfter(v, showing, a), b)
    ensures ShowingAfter(v, showing, a + b) == ShowingAfter(v, ShowingAfter(v, showing, a), b)
    decreases |a|
  {
    hide Decides, LineText, Emitted;
    if a == [] {
      assert a + b == b;
    } else {
      assert (a + b)[1..] == a[1..] + b;
      OutputAppend(v, Decides(v, showing, LineText(v, a[0])), a[1..], b);
    }
  }

  /** A continuation line is shown exactly when the record it belongs to is. */
  lemma {:induction false} ContinuationsFollow(v: View, showing: bool, header: seq<byte>, more: seq<seq<byte>>)
    requires v.parse(LineText(v, header)).Some? && forall i :: 0 <= i < |more| ==> v.parse(LineText(v, more[i])).None?
    ensures var shown := Accepts(v.filter, v.parse(LineText(v, header)).value);
            ShowingAfter(v, showing, [header] + more) == shown
            && |Output(v, showing, [header] + more)| == if shown then 1 + |more| else 0
  {
    hide LineText, Accepts;
    assert ([header] + more)[1..] == more;
    AllAlike(v, Accepts(v.filter, v.parse(LineText(v, header)).value), more);
  }

  lemma {:induction false} AllAlike(v: View, showing: bool, lines: seq<seq<byte>>)
    requires forall i :: 0 <= i < |lines| ==> v.parse(LineText(v, lines[i])).None?
    ensures ShowingAfter(v, showing, lines) == showing && |Output(v, showing, lines)| == if showing then |lines| else 0
  {
    hide LineText, Accepts;
    if lines != [] {
      AllAlike(v, showing, lines[1..]);
    }
  }

  /** What printing a whole file shows. */
  function Printed(v: View, content: seq<byte>): (r: seq<string>) {
    Output(v, IsEmpty(v.filter), Lines(content))
  }

  class LineFilter {
    const view: View
    var showing: bool

    constructor (view: View)
      ensures this.view == view && showing == IsEmpty(view.filter)
    {
      this.view := view;
      this.showing := IsEmpty(view.filter);
    }

    /** `accept`: a header decides, any other line follows the last decision. */
    method Accept(line: string) returns (shown: bool)
      modifies this
      ensures shown == showing == Decides(view, old(showing), line)
    {
      var record := view.parse(line);
      if record.Some? {
        showing := Accepts(view.filter, record.value);
      }
      return showing;
    }

    /** `emit`. */
    method Emit(raw: seq<byte>) returns (out: seq<string>)
      modifies this
      ensures out == Emitted(view, old(showing), raw)
      ensures showing == Decides(view, old(showing), LineText(view, raw))
    {
      var line := LineText(view, raw);
      var shown := Accept(line);
      return if shown then [Shown(view, line)] else [];
    }

    /** Emit every line of `bytes`, cut after each newline. */
    method EmitLines(bytes: seq<byte>) returns (out: seq<string>)
      modifies this
      ensures out == Output(view, old(showing), Lines(bytes))
              && showing == ShowingAfter(view, old(showing), Lines(bytes))
    {
      hide Emitted, Decides, LineText, LineEnd, Output, ShowingAfter, Lines;
      out := [];
      var left := bytes;
      ghost var all, last := Output(view, showing, Lines(bytes)), ShowingAfter(view, showing, Lines(bytes));
      while left != []
        invariant all == out + Output(view, showing, Lines(left)) && last == ShowingAfter(view, showing, Lines(left))
        decreases |left|
      {
        LinesStep(view, showing, left);
        var end := LineEnd(left);
        var emitted := Emit(left[..end]);
        out := out + emitted;
        left := left[end..];
      }
      NoLines(view, showing);
    }
  }

  lemma NoLines(v: View, showing: bool)
    ensures Output(v, showing, Lines([])) == [] && ShowingAfter(v, showing, Lines([])) == showing
  {
  }

  lemma LinesStep(v: View, showing: bool, s: seq<byte>)
    requires s != []
    ensures var n := LineEnd(s);
            var after := Decides(v, showing, LineText(v, s[..n]));
            && Output(v, showing, Lines(s)) == Emitted(v, showing, s[..n]) + Output(v, after, Lines(s[n..]))
            && ShowingAfter(v, showing, Lines(s)) == ShowingAfter(v, after, Lines(s[n..]))
  {
    hide Emitted, Decides, LineText, LineEnd;
    var n := LineEnd(s);
    assert Lines(s)[0] == s[..n] && Lines(s)[1..] == Lines(s[n..]);
  }

  /** `print_file`. */
  method PrintFile(view: View, content: seq<byte>) returns (out: seq<string>)
    ensures out == Printed(view, content)
  {
    var filter := new LineFilter(view);
    out := filter.EmitLines(content);
  }

  class Tail {
    var pos: nat
    var partial: seq<byte>

    constructor ()
      ensures pos == 0 && partial == []
    {
      pos := 0;
      partial := [];
    }

    ghost predicate Valid()
      reads this
    {
      !HasNewline(partial)
    }

    /** What this poll has to work on: the kept partial line and the new bytes, or the whole file after a truncation. */
    ghost function Fed(content: seq<byte>): (r: seq<byte>)
      reads this
    {
      if |content| < pos then content else partial + content[pos..]
    }

    /** Emit the complete lines appended since the last poll; keep a partial one. */
    method Poll(content: seq<byte>, filter: LineFilter) returns (out: seq<string>)
      requires Valid()
      modifies this, filter
      ensures Valid() && pos == |content| && partial == Rest(old(Fed(content)))
      ensures out == Output(filter.view, old(filter.showing), Lines(Complete(old(Fed(content)))))
      ensures filter.showing == ShowingAfter(filter.view, old(filter.showing), Lines(Complete(old(Fed(content)))))
    {
      hide Output, ShowingAfter, Lines;
      var len := |content|;
      if len < pos {
        pos := 0;
        partial := [];
      }
      ghost var fed := partial + content[pos..];
      assert fed == old(Fed(content));
      NoLines(filter.view, filter.showing);
      if len == pos {
        assert fed == partial;
        return [];
      }
      partial := partial + content[pos..];
      pos := len;
      if !HasNewline(partial) {
        return [];
      }
      var last := CompleteLen(partial);
      var rest := partial[last..];
      out := filter.EmitLines(partial[..last]);
      partial := rest;
    }
  }

  /** A file that grew: what was fed completes what was seen. */
  lemma FedCompletes(seen: seq<byte>, content: seq<byte>)
    requires seen <= content
    ensures var fed := Rest(seen) + content[|seen|..];
            Complete(content) == Complete(seen) + Complete(fed) && Rest(content) == Rest(fed)
  {
    hide CompleteLen;
    var a, more := Complete(seen), content[|seen|..];
    SplitsAgain(seen, content);
    CompleteOf(a, Rest(seen) + more);
    CutAfter(a, Rest(seen) + more, CompleteLen(Rest(seen) + more));
  }

  lemma SplitsAgain(seen: seq<byte>, content: seq<byte>)
    requires seen <= content
    ensures content == Complete(seen) + (Rest(seen) + content[|seen|..])
  {
    hide CompleteLen;
    var more := content[|seen|..];
    assert seen == Complete(seen) + Rest(seen) && content == seen + more;
  }

  lemma CutAfter(a: seq<byte>, b: seq<byte>, n: nat)
    requires n <= |b|
    ensures (a + b)[..|a| + n] == a + b[..n] && (a + b)[|a| + n..] == b[n..]
  {
  }

  // ----- following -----

  /** What the polls have received since the file was last truncated. */
  ghost function Received(contents: seq<seq<byte>>, n: nat): (r: seq<byte>)
    requires n <= |contents|
    ensures |r| == if n == 0 then 0 else |contents[n - 1]|
  {
    if n == 0 then []
    else
      var r, now := Received(contents, n - 1), contents[n - 1];
      if |now| < |r| then now else r + now[|r|..]
  }

  ghost predicate Truncated(contents: seq<seq<byte>>, n: nat)
    requires 0 < n <= |contents|
  {
    n > 1 && |contents[n - 1]| < |contents[n - 2]|
  }

  /** The lines shown before the last truncation. */
  ghost function Earlier(contents: seq<seq<byte>>, n: nat): (r: seq<seq<byte>>)
    requires n <= |contents|
    decreases n, 0
  {
    if n == 0 then [] else if Truncated(contents, n) then Offered(contents, n - 1) else Earlier(contents, n - 1)
  }

  /** Every line the first `n` polls put to the filter. */
  ghost function Offered(contents: seq<seq<byte>>, n: nat): (r: seq<seq<byte>>)
    requires n <= |contents|
    decreases n, 1
  {
    Earlier(contents, n) + Lines(Complete(Received(contents, n)))
  }

  lemma OfferedStep(contents: seq<seq<byte>>, n: nat)
    requires n < |contents|
    ensures var r, now := Received(contents, n), contents[n];
            var fed := if |now| < |r| then now else Rest(r) + now[|r|..];
            && Offered(contents, n + 1) == Offered(contents, n) + Lines(Complete(fed))
            && Rest(Received(contents, n + 1)) == Rest(fed)
  {
    hide Lines, Complete, Rest;
    var r, now := Received(contents, n), contents[n];
    if |now| >= |r| {
      var whole := r + now[|r|..];
      assert whole[|r|..] == now[|r|..];
      ReceivedCompletes(r, whole);
      Associate(Earlier(contents, n), Lines(Complete(r)), Lines(Complete(Rest(r) + now[|r|..])));
    }
  }

  lemma ReceivedCompletes(seen: seq<byte>, content: seq<byte>)
    requires seen <= content
    ensures var fed := Rest(seen) + content[|seen|..];
            Lines(Complete(content)) == Lines(Complete(seen)) + Lines(Complete(fed)) && Rest(content) == Rest(fed)
  {
    hide Lines;
    FedCompletes(seen, content);
    LinesAppend(Complete(seen), Complete(Rest(seen) + content[|seen|..]));
  }

  ghost predicate Grows(contents: seq<seq<byte>>) {
    forall i :: 0 < i < |contents| ==> contents[i - 1] <= contents[i]
  }

  /** A file that only grows offers the lines of its last content, up to the last newline. */
  lemma {:induction false} GrowingOffersAll(contents: seq<seq<byte>>, n: nat)
    requires Grows(contents) && 0 < n <= |contents|
    ensures Received(contents, n) == contents[n - 1] && Earlier(contents, n) == []
    ensures Offered(contents, n) == Lines(Complete(contents[n - 1]))
  {
    hide Lines, Complete;
    if n > 1 {
      GrowingOffersAll(contents, n - 1);
      assert contents[n - 2] <= contents[n - 1];
    } else {
      assert Received(contents, 0) == [] && Earlier(contents, 0) == [];
    }
  }

  /**
    Following a file, polled at any moments and truncated at any, shows the
    filtered lines it was offered; while the file only grows that is what
    printing it up to its last newline would show.
   */
  method Follow(view: View, contents: seq<seq<byte>>) returns (out: seq<string>)
    ensures out == Output(view, IsEmpty(view.filter), Offered(contents, |contents|))
    ensures Grows(contents) && contents != [] ==> out == Printed(view, Complete(contents[|contents| - 1]))
  {
    hide Output, ShowingAfter, Lines, Complete, Rest, Offered, Received;
    var filter := new LineFilter(view);
    var tail := new Tail();
    out := [];
    ghost var start := filter.showing;
    NothingSeen(view, start, contents);
    for i := 0 to |contents|
      invariant tail.Valid() && tail.pos == |Received(contents, i)| && tail.partial == Rest(Received(contents, i))
      invariant fresh(tail) && fresh(filter) && filter.view == view
      invariant out == Output(view, start, Offered(contents, i))
      invariant filter.showing == ShowingAfter(view, start, Offered(contents, i))
    {
      ghost var fed := tail.Fed(contents[i]);
      OfferedStep(contents, i);
      OutputAppend(view, start, Offered(contents, i), Lines(Complete(fed)));
      var more := tail.Poll(contents[i], filter);
      out := out + more;
    }
    if Grows(contents) && contents != [] {
      GrowingOffersAll(contents, |contents|);
    }
  }

  lemma NothingSeen(v: View, showing: bool, contents: seq<seq<byte>>)
    ensures Received(contents, 0) == [] && Rest([]) == [] && Offered(contents, 0) == []
    ensures Output(v, showing, []) == [] && ShowingAfter(v, showing, []) == showing
  {
  }
}

/** Which files are host logs of which VM. */
module LogNames {
  import opened Results

  predicate AllDigits(s: string) {
    forall i :: 0 <= i < |s| ==> '0' <= s[i] <= '9'
  }

  function StripPrefix(s: string, prefix: string): (r: Option<string>)
    ensures r.Some? <==> prefix <= s
    ensures r.Some? ==> s == prefix + r.value
  {
    if prefix <= s then Some(s[|prefix|..]) else None
  }

  function StripSuffix(s: string, suffix: string): (r: Option<string>)
    ensures r.Some? ==> s == r.value + suffix
    ensures |suffix| <= |s| && s[|s| - |suffix|..] == suffix ==> r == Some(s[..|s| - |suffix|])
  {
    if |suffix| <= |s| && s[|s| - |suffix|..] == suffix then Some(s[..|s| - |suffix|]) else None
  }

  /** Text before and after the first dash. */
  function SplitDash(s: string): (r: Option<(string, string)>)
    ensures r.Some? ==> s == r.value.0 + "-" + r.value.1 && '-' !in r.value.0
    ensures r.None? ==> '-' !in s
  {
    if s == "" then None
    else if s[0] == '-' then Some(("", s[1..]))
    else
      match SplitDash(s[1..])
      case None => None
      case Some((a, b)) => Some(([s[0]] + a, b))
  }

  /** `YYYYMMDD-HHMMSS`. */
  predicate IsStamp(s: string) {
    |s| == 15 && AllDigits(s[..8]) && s[8] == '-' && AllDigits(s[9..])
  }

  function StampOf(fileName: string, vm: string): (r: Option<string>) {
    var a := StripPrefix(fileName, "ternvale-");
    if a.None? then None
    else
      var b := StripPrefix(a.value, vm);
      if b.None? then None
      else
        var c := StripPrefix(b.value, "-");
        if c.None? then None
        else
          var stamp := StripSuffix(c.value, ".log");
          if stamp.None? then None
          else
            match SplitDash(stamp.value)
            case None => None
            case Some((day, time)) =>
              if |day| == 8 && AllDigits(day) && |time| == 6 && AllDigits(time) then stamp else None
  }

  function LogName(vm: string, stamp: string): (r: string) {
    "ternvale-" + vm + "-" + stamp + ".log"
  }

  lemma SplitIsStamp(s: string)
    ensures IsStamp(s) <==>
              var d := SplitDash(s);
              d.Some? && |d.value.0| == 8 && AllDigits(d.value.0) && |d.value.1| == 6 && AllDigits(d.value.1)
  {
    hide SplitDash;
    var d := SplitDash(s);
    if d.Some? {
      var (a, b) := d.value;
      if |a| == 8 && |b| == 6 {
        assert s[..8] == a && s[9..] == b;
      }
      if IsStamp(s) {
        DashAt(s, a, b);
      }
    }
  }

  lemma DashAt(s: string, a: string, b: string)
    requires s == a + "-" + b && '-' !in a && IsStamp(s)
    ensures |a| == 8 && s[..8] == a && s[9..] == b
  {
    assert s[|a|] == '-';
    assert forall i :: 0 <= i < 8 ==> s[..8][i] == s[i];
    assert forall i :: 0 <= i < |a| ==> a[i] == s[i];
  }

  /** The name match is exact: a file is a log of `vm` exactly when it is that VM's name for some time. */
  lemma StampIsExact(fileName: string, vm: string, stamp: string)
    ensures StampOf(fileName, vm) == Some(stamp) <==> fileName == LogName(vm, stamp) && IsStamp(stamp)
  {
    hide SplitDash, AllDigits;
    SplitIsStamp(stamp);
    if fileName == LogName(vm, stamp) {
      NameStrips(vm, stamp);
    }
  }

  lemma NameStrips(vm: string, stamp: string)
    ensures var rest, tail, last := vm + "-" + stamp + ".log", "-" + stamp + ".log", stamp + ".log";
            && StripPrefix(LogName(vm, stamp), "ternvale-") == Some(rest)
            && StripPrefix(rest, vm) == Some(tail)
            && StripPrefix(tail, "-") == Some(last)
            && StripSuffix(last, ".log") == Some(stamp)
  {
    var fileName := LogName(vm, stamp);
    var rest := vm + "-" + stamp + ".log";
    assert fileName == "ternvale-" + rest && fileName[9..] == rest;
    var tail := "-" + stamp + ".log";
    assert rest == vm + tail && rest[|vm|..] == tail;
    var last := stamp + ".log";
    assert tail == "-" + last && tail[1..] == last;
    assert last[|stamp|..] == ".log" && last[..|stamp|] == stamp;
  }

  /** So no file is a log of two VMs: `demo` never picks up `demo-2`. */
  lemma OneVmPerLog(fileName: string, vm: string, other: string)
    requires StampOf(fileName, vm).Some? && StampOf(fileName, other).Some?
    ensures vm == other
  {
    hide StampOf, AllDigits;
    var s, t := StampOf(fileName, vm).value, StampOf(fileName, other).value;
    StampIsExact(fileName, vm, s);
    StampIsExact(fileName, other, t);
    assert |vm| == |other|;
    assert fileName[9..9 + |vm|] == vm && fileName[9..9 + |other|] == other;
  }
}
