/** The reconnect loop and its exponential backoff. */
module Reconnect {
  import opened Results
  import opened Protocol
  import opened Session

  // Durations in nanoseconds; the largest is 2^64 - 1 seconds and 999,999,999 nanoseconds.
  const MAX_DURATION: nat := 0xffff_ffff_ffff_ffff * 1_000_000_000 + 999_999_999

  type Duration = d: nat | d <= MAX_DURATION

  function Min(a: nat, b: nat): (r: nat)
    ensures r <= a && r <= b && (r == a || r == b)
  {
    if a < b then a else b
  }

  function Pow2(n: nat): (r: nat)
    ensures r > 0
  {
    if n == 0 then 1 else 2 * Pow2(n - 1)
  }

  /** The delay after the `k`-th failure in a row. */
  function DelayAfter(initial: Duration, max: Duration, k: nat): (d: Duration)
    requires k > 0
  {
    Min(initial * Pow2(k - 1), max)
  }

  /** One more failure doubles the delay, up to the limit, even where the multiplication saturates. */
  lemma DelayDoubles(initial: Duration, max: Duration, k: nat)
    requires k > 0
    ensures DelayAfter(initial, max, k + 1) == Min(Min(2 * DelayAfter(initial, max, k), MAX_DURATION), max)
  {
    var x := initial * Pow2(k - 1);
    assert initial * Pow2(k) == 2 * x by {
      assert Pow2(k) == 2 * Pow2(k - 1);
      Regroup(initial, Pow2(k - 1));
    }
  }

  lemma Regroup(a: nat, b: nat)
    ensures a * (2 * b) == 2 * (a * b)
  {
  }

  lemma DelayFirst(initial: Duration, max: Duration)
    ensures DelayAfter(initial, max, 1) == Min(initial, max)
    ensures forall k :: k > 0 ==> DelayAfter(Min(initial, max), max, k) == DelayAfter(initial, max, k)
  {
    forall k | k > 0 ensures DelayAfter(Min(initial, max), max, k) == DelayAfter(initial, max, k) {
      if max <= initial {
        Grows(max, Pow2(k - 1));
        Grows(initial, Pow2(k - 1));
      }
    }
  }

  lemma Grows(a: nat, b: nat)
    requires b > 0
    ensures a <= a * b
  {
    assert a * 1 <= a * b;
  }

  class Backoff {
    const initial: Duration
    const max: Duration
    var next: Duration

    /** `failures` failures in a row so far. */
    ghost predicate After(failures: nat)
      reads this
    {
      next == DelayAfter(initial, max, failures + 1)
    }

    constructor (initial: Duration, max: Duration)
      ensures this.initial == Min(initial, max) && this.max == max && After(0)
    {
      this.initial := Min(initial, max);
      this.max := max;
      this.next := Min(initial, max);
      new;
      DelayFirst(this.initial, max);
    }

    method NextDelay(ghost failures: nat) returns (delay: Duration)
      requires After(failures)
      modifies this
      ensures delay == DelayAfter(initial, max, failures + 1) && After(failures + 1)
    {
      delay := next;
      next := Min(Min(2 * next, MAX_DURATION), max);
      DelayDoubles(initial, max, failures + 1);
    }

    method Reset()
      requires initial <= max
      modifies this
      ensures After(0)
    {
      next := initial;
      DelayFirst(initial, max);
    }
  }

  // ----- a run -----

  /** What one turn of the loop meets. */
  datatype Turn = StopSeen | NotConnected | Served(end: SessionEnd)

  datatype Exit = HostShutdown | UserStop

  datatype Wait = Wait(failures: nat, delay: Duration)

  predicate IsFailure(t: Turn) {
    t.NotConnected? || (t.Served? && t.end.Ended?)
  }

  predicate WasHandshaken(t: Turn) {
    t.Served? && t.end.Ended? && t.end.handshaken
  }

  /** Failures among turns `lo` to `hi`. */
  function Failures(turns: seq<Turn>, lo: nat, hi: nat): (n: nat)
    requires lo <= hi <= |turns|
  {
    if lo == hi then 0 else Failures(turns, lo, hi - 1) + if IsFailure(turns[hi - 1]) then 1 else 0
  }

  /** The last turn before `n` whose session got as far as a Welcome, or the start. */
  function LastHandshake(turns: seq<Turn>, n: nat): (i: nat)
    requires n <= |turns|
    ensures i <= n
    ensures i == 0 || (i < n && WasHandshaken(turns[i]))
    ensures forall j :: i < j < n ==> !WasHandshaken(turns[j])
    ensures (exists j :: 0 <= j < n && WasHandshaken(turns[j])) ==> i < n && WasHandshaken(turns[i])
  {
    if n == 0 then 0 else if WasHandshaken(turns[n - 1]) then n - 1 else LastHandshake(turns, n - 1)
  }

  /** Failures in a row after `n` turns: those since the last handshaken session, that one included. */
  function InARow(turns: seq<Turn>, n: nat): (k: nat)
    requires n <= |turns|
  {
    Failures(turns, LastHandshake(turns, n), n)
  }

  /** The waits of the first `n` turns: one for each failure. */
  function Waits(initial: Duration, max: Duration, turns: seq<Turn>, n: nat): (r: seq<Wait>)
    requires n <= |turns|
  {
    if n == 0 then []
    else
      Waits(initial, max, turns, n - 1)
      + if IsFailure(turns[n - 1]) then [Wait(InARow(turns, n), DelayAfter(initial, max, Positive(turns, n)))] else []
  }

  /** A failing turn makes at least one failure in a row. */
  function Positive(turns: seq<Turn>, n: nat): (k: nat)
    requires 0 < n <= |turns| && IsFailure(turns[n - 1])
    ensures k == InARow(turns, n) && k > 0
  {
    InARow(turns, n)
  }

  lemma InARowStep(turns: seq<Turn>, n: nat)
    requires n < |turns|
    ensures InARow(turns, n + 1)
            == (if WasHandshaken(turns[n]) then 0 else InARow(turns, n)) + if IsFailure(turns[n]) then 1 else 0
  {
    if WasHandshaken(turns[n]) {
      assert LastHandshake(turns, n + 1) == n;
      assert Failures(turns, n, n + 1) == Failures(turns, n, n) + 1;
    } else {
      assert LastHandshake(turns, n + 1) == LastHandshake(turns, n);
    }
  }

  predicate Ends(t: Turn) {
    t.StopSeen? || (t.Served? && t.end.PoweredOff?)
  }

  /**
    `run` over any sequence of turns. After each failure it waits for the
    delay of that many failures in a row; it returns at the first turn that
    ends it.
   */
  method Run(initial: Duration, max: Duration, turns: seq<Turn>) returns (exit: Option<Exit>, waits: seq<Wait>, n: nat)
    ensures n <= |turns| && waits == Waits(initial, max, turns, n)
    ensures exit.None? ==> n == |turns| && forall i :: 0 <= i < n ==> !Ends(turns[i])
    ensures exit.Some? ==> n > 0 && Ends(turns[n - 1]) && (forall i :: 0 <= i < n - 1 ==> !Ends(turns[i]))
                           && (exit.value == UserStop <==> turns[n - 1].StopSeen?)
  {
    hide DelayAfter, InARow;
    var backoff := new Backoff(initial, max);
    DelayFirst(initial, max);
    var failures := 0;
    waits := [];
    NoneInARow(turns);
    n := 0;
    while n < |turns|
      invariant n <= |turns| && failures == InARow(turns, n) && backoff.After(failures)
                && backoff.initial <= backoff.max
      invariant backoff.initial == Min(initial, max) && backoff.max == max && fresh(backoff)
      invariant waits == Waits(initial, max, turns, n)
      invariant forall i :: 0 <= i < n ==> !Ends(turns[i])
    {
      var turn := turns[n];
      InARowStep(turns, n);
      n := n + 1;
      if turn.StopSeen? {
        return Some(UserStop), waits, n;
      }
      if turn.Served? {
        match turn.end
        case PoweredOff => return Some(HostShutdown), waits, n;
        case StoppedByUser => continue;
        case Ended(handshaken, _) =>
          if handshaken {
            backoff.Reset();
            failures := 0;
          }
      }
      var delay := backoff.NextDelay(failures);
      failures := failures + 1;
      waits := waits + [Wait(failures, delay)];
    }
    exit := None;
  }

  lemma NoneInARow(turns: seq<Turn>)
    ensures InARow(turns, 0) == 0
  {
  }

  const NAP: Duration := 20_000_000

  function Slept(naps: seq<nat>): (r: nat) {
    if naps == [] then 0 else Slept(naps[..|naps| - 1]) + naps[|naps| - 1]
  }

  /** `sleep_unless_stopped`: naps of at most 20 ms, all full but the last, that add up to the delay unless stopped. */
  method Sleep(total: Duration) returns (naps: seq<nat>, stopped: bool)
    ensures forall i :: 0 <= i < |naps| ==> 0 < naps[i] <= NAP && (i < |naps| - 1 ==> naps[i] == NAP)
    ensures if stopped then Slept(naps) < total else Slept(naps) == total
  {
    naps, stopped := [], false;
    var slept := 0;
    while slept < total
      invariant slept == Slept(naps) <= total && !stopped
      invariant forall i :: 0 <= i < |naps| ==>
                  0 < naps[i] <= NAP && (i < |naps| - 1 || slept < total ==> naps[i] == NAP)
    {
      stopped := *;
      if stopped {
        return;
      }
      var nap := Min(NAP, total - slept);
      assert (naps + [nap])[..|naps|] == naps;
      naps := naps + [nap];
      slept := slept + nap;
    }
  }
}
