/** Protocol messages, and what the agent can do about them. */
module Protocol {
  import opened Results
  import opened Bytes

  /** UTF-8 text. */
  type Text = seq<byte>

  datatype GuestWindow = GuestWindow(id: u64, title: Text, x: int, y: int, width: u32, height: u32)

  datatype Message =
    | Hello(version: u32, os: Text, agent: Text)
    | Welcome(version: u32)
    | Reject(reason: Text, minVersion: u32, maxVersion: u32)
    | Ping(seqNo: u64)
    | Pong(seqNo: u64)
    | SetResolution(width: u32, height: u32)
    | ClipboardSet(text: Text)
    | ClipboardGet
    | ClipboardGetOk(text: Text)
    | ShareMount(tag: Text, mountPoint: Text)
    | Shutdown
    | WindowListGet
    | WindowListOk(windows: seq<GuestWindow>)

  const PROTOCOL_VERSION: u32 := 3
  const MIN_PROTOCOL_VERSION: u32 := 1
  const MAX_CLIPBOARD_BYTES: nat := 64 * 1024

  datatype AgentError =
    | SetTimeoutError
    | SendError
    | ReadError
    | Rejected
    | Version
    | HandshakeTimeout
    | Idle
    | Disconnected
    | ActionError

  /** The errors that say the connection itself is broken. */
  predicate IsFrameError(e: AgentError) {
    e == SetTimeoutError || e == SendError || e == ReadError
  }

  /** The lower of the two versions, unless it is too old. */
  function Negotiate(peer: u32): (r: Result<u32, AgentError>)
    ensures r.Ok? <==> peer >= MIN_PROTOCOL_VERSION
    ensures r.Ok? ==> r.value <= peer && r.value <= PROTOCOL_VERSION && (r.value == peer || r.value == PROTOCOL_VERSION)
  {
    if peer < MIN_PROTOCOL_VERSION then Err(Version) else Ok(if peer < PROTOCOL_VERSION then peer else PROTOCOL_VERSION)
  }

  // ----- what a session does, as seen from outside -----

  datatype Action =
    | Resize(width: u32, height: u32)
    | SetClipboard(text: Text)
    | GetClipboard
    | Mount(tag: Text, mountPoint: Text)
    | ListWindows
    | PowerOff

  datatype Effect =
    | Sent(message: Message)
    | SendFailed(message: Message)
    | Did(action: Action)

  /** One handled request, or one idle tick; `over` when the session ended there. */
  datatype Step = Step(request: Option<Message>, effects: seq<Effect>, over: bool)

  /** A write is the end of the session when it fails. */
  predicate Tries(m: Message, effects: seq<Effect>, over: bool) {
    effects == if over then [SendFailed(m)] else [Sent(m)]
  }

  /** A read-and-reply request: the session ends if either half fails. */
  predicate Replies(a: Action, effects: seq<Effect>, over: bool) {
    || (over && effects == [Did(a)])
    || (|effects| == 2 && effects[0] == Did(a) && !effects[1].Did? && Tries(effects[1].message, effects[1..], over))
  }

  predicate IsReply(request: Message, reply: Message) {
    (request.ClipboardGet? && reply.ClipboardGetOk?) || (request.WindowListGet? && reply.WindowListOk?)
  }

  /** What each request may lead to. */
  predicate Answers(m: Message, effects: seq<Effect>, over: bool) {
    match m
    case Ping(n) => Tries(Pong(n), effects, over)
    case SetResolution(w, h) => effects == [Did(Resize(w, h))]
    case ClipboardSet(text) => effects == [Did(SetClipboard(text))]
    case ClipboardGet => Replies(GetClipboard, effects, over) && (|effects| == 2 ==> IsReply(m, effects[1].message))
    case ShareMount(tag, at) => effects == [Did(Mount(tag, at))]
    case WindowListGet => Replies(ListWindows, effects, over) && (|effects| == 2 ==> IsReply(m, effects[1].message))
    case Shutdown => effects == [Did(PowerOff)] && over
    case _ => effects == [] && !over
  }

  /** An idle tick sends at most one pushed clipboard, never a larger one than the cap. */
  predicate Pushes(effects: seq<Effect>, over: bool) {
    || (effects == [] && !over)
    || (|effects| == 1 && !effects[0].Did? && effects[0].message.ClipboardSet?
        && |effects[0].message.text| <= MAX_CLIPBOARD_BYTES && Tries(effects[0].message, effects, over))
  }

  predicate IsStep(s: Step) {
    if s.request.Some? then Answers(s.request.value, s.effects, s.over) else Pushes(s.effects, s.over)
  }

  /** Steps of one session: nothing follows the step that ended it. */
  ghost predicate IsRun(steps: seq<Step>) {
    forall i :: 0 <= i < |steps| ==> IsStep(steps[i]) && (steps[i].over ==> i == |steps| - 1)
  }

  function Trace(steps: seq<Step>): (r: seq<Effect>) {
    if steps == [] then [] else Trace(steps[..|steps| - 1]) + steps[|steps| - 1].effects
  }

  function Requests(steps: seq<Step>): (r: seq<Message>) {
    if steps == [] then []
    else Requests(steps[..|steps| - 1]) + if steps[|steps| - 1].request.Some? then [steps[|steps| - 1].request.value]
      else []
  }

  lemma Append(steps: seq<Step>, s: Step)
    ensures Trace(steps + [s]) == Trace(steps) + s.effects
    ensures Requests(steps + [s]) == Requests(steps) + if s.request.Some? then [s.request.value] else []
  {
    assert (steps + [s])[..|steps|] == steps;
  }

  lemma RunGrows(steps: seq<Step>, s: Step)
    requires IsRun(steps) && (forall i :: 0 <= i < |steps| ==> !steps[i].over) && IsStep(s)
    ensures IsRun(steps + [s])
  {
  }

  // ----- what every run guarantees -----

  function PingsIn(ms: seq<Message>): (r: seq<u64>) {
    if ms == [] then [] else PingsIn(ms[..|ms| - 1]) + if ms[|ms| - 1].Ping? then [ms[|ms| - 1].seqNo] else []
  }

  /** Sequence numbers of the Pongs written, or tried. */
  function PongsTried(es: seq<Effect>): (r: seq<u64>) {
    if es == [] then []
    else PongsTried(es[..|es| - 1]) + if !es[|es| - 1].Did? && es[|es| - 1].message.Pong?
      then [es[|es| - 1].message.seqNo] else []
  }

  function PongsSent(es: seq<Effect>): (r: seq<u64>) {
    if es == [] then []
    else PongsSent(es[..|es| - 1]) + if es[|es| - 1].Sent? && es[|es| - 1].message.Pong?
      then [es[|es| - 1].message.seqNo] else []
  }

  function ActionsIn(es: seq<Effect>): (r: seq<Action>) {
    if es == [] then [] else ActionsIn(es[..|es| - 1]) + if es[|es| - 1].Did? then [es[|es| - 1].action] else []
  }

  /** The action a request asks for. */
  function Asks(m: Message): (r: seq<Action>) {
    match m
    case SetResolution(w, h) => [Resize(w, h)]
    case ClipboardSet(text) => [SetClipboard(text)]
    case ClipboardGet => [GetClipboard]
    case ShareMount(tag, at) => [Mount(tag, at)]
    case WindowListGet => [ListWindows]
    case Shutdown => [PowerOff]
    case _ => []
  }

  function AskedActions(ms: seq<Message>): (r: seq<Action>) {
    if ms == [] then [] else AskedActions(ms[..|ms| - 1]) + Asks(ms[|ms| - 1])
  }

  lemma {:induction false} PongsTriedAppend(a: seq<Effect>, b: seq<Effect>)
    ensures PongsTried(a + b) == PongsTried(a) + PongsTried(b)
  {
    if b == [] {
      assert a + b == a;
    } else {
      PongsTriedAppend(a, b[..|b| - 1]);
      assert (a + b)[..|a + b| - 1] == a + b[..|b| - 1];
    }
  }

  lemma {:induction false} PongsSentAppend(a: seq<Effect>, b: seq<Effect>)
    ensures PongsSent(a + b) == PongsSent(a) + PongsSent(b)
  {
    if b == [] {
      assert a + b == a;
    } else {
      PongsSentAppend(a, b[..|b| - 1]);
      assert (a + b)[..|a + b| - 1] == a + b[..|b| - 1];
    }
  }

  lemma {:induction false} ActionsInAppend(a: seq<Effect>, b: seq<Effect>)
    ensures ActionsIn(a + b) == ActionsIn(a) + ActionsIn(b)
  {
    if b == [] {
      assert a + b == a;
    } else {
      ActionsInAppend(a, b[..|b| - 1]);
      assert (a + b)[..|a + b| - 1] == a + b[..|b| - 1];
    }
  }

  lemma EffectsAppend(a: seq<Effect>, b: seq<Effect>)
    ensures PongsTried(a + b) == PongsTried(a) + PongsTried(b)
    ensures PongsSent(a + b) == PongsSent(a) + PongsSent(b)
    ensures ActionsIn(a + b) == ActionsIn(a) + ActionsIn(b)
  {
    hide PongsTried, PongsSent, ActionsIn;
    PongsTriedAppend(a, b);
    PongsSentAppend(a, b);
    ActionsInAppend(a, b);
  }

  lemma EffectsOne(e: Effect)
    ensures PongsTried([e]) == if !e.Did? && e.message.Pong? then [e.message.seqNo] else []
    ensures PongsSent([e]) == if e.Sent? && e.message.Pong? then [e.message.seqNo] else []
    ensures ActionsIn([e]) == if e.Did? then [e.action] else []
  {
    assert [e][..0] == [];
  }

  lemma EffectsFew(es: seq<Effect>)
    ensures es == [] ==> PongsTried(es) == [] && PongsSent(es) == [] && ActionsIn(es) == []
    ensures |es| == 2 ==> PongsTried(es) == PongsTried([es[0]]) + PongsTried([es[1]])
                          && PongsSent(es) == PongsSent([es[0]]) + PongsSent([es[1]])
                          && ActionsIn(es) == ActionsIn([es[0]]) + ActionsIn([es[1]])
  {
    if |es| == 2 {
      assert es == [es[0]] + [es[1]];
      EffectsAppend([es[0]], [es[1]]);
    }
  }

  lemma StepEffects(s: Step)
    requires IsStep(s)
    ensures PongsTried(s.effects) == if s.request.Some? && s.request.value.Ping? then [s.request.value.seqNo] else []
    ensures !s.over ==> PongsSent(s.effects) == PongsTried(s.effects)
    ensures s.over ==> PongsSent(s.effects) == []
    ensures ActionsIn(s.effects) == if s.request.Some? then Asks(s.request.value) else []
  {
    hide PongsTried, PongsSent, ActionsIn;
    EffectsFew(s.effects);
    if |s.effects| == 1 {
      EffectsOne(s.effects[0]);
      assert s.effects == [s.effects[0]];
    } else if |s.effects| == 2 {
      EffectsOne(s.effects[0]);
      EffectsOne(s.effects[1]);
    }
  }

  lemma Init(steps: seq<Step>)
    requires IsRun(steps) && steps != []
    ensures IsRun(steps[..|steps| - 1]) && IsStep(steps[|steps| - 1])
    ensures forall i :: 0 <= i < |steps| - 1 ==> !steps[i].over
  {
  }

  lemma PingsAppend(ms: seq<Message>, more: seq<Message>)
    requires |more| <= 1
    ensures PingsIn(ms + more) == PingsIn(ms) + if |more| == 1 && more[0].Ping? then [more[0].seqNo] else []
    ensures AskedActions(ms + more) == AskedActions(ms) + if |more| == 1 then Asks(more[0]) else []
  {
    if more == [] {
      assert ms + more == ms;
    } else {
      assert (ms + more)[..|ms|] == ms;
    }
  }

  /** Pings are answered in order, each once; at most the last answer failed to go out. */
  lemma {:induction false} PongsAnswerPings(steps: seq<Step>)
    requires IsRun(steps)
    ensures PongsTried(Trace(steps)) == PingsIn(Requests(steps))
    ensures (steps == [] || !steps[|steps| - 1].over) ==> PongsSent(Trace(steps)) == PingsIn(Requests(steps))
    ensures PongsSent(Trace(steps)) == PingsIn(Requests(steps))
            || (PingsIn(Requests(steps)) != []
                && PongsSent(Trace(steps)) == PingsIn(Requests(steps))[..|PingsIn(Requests(steps))| - 1])
  {
    hide IsStep, PongsTried, PongsSent, PingsIn;
    if steps == [] {
      EffectsFew([]);
      NoPings();
    } else {
      var init, last := steps[..|steps| - 1], steps[|steps| - 1];
      Init(steps);
      PongsAnswerPings(init);
      StepEffects(last);
      EffectsAppend(Trace(init), last.effects);
      PingsAppend(Requests(init), if last.request.Some? then [last.request.value] else []);
    }
  }

  lemma NoPings()
    ensures PingsIn([]) == [] && AskedActions([]) == []
  {
  }

  /** Actions run in request order, each request's once, and no others. */
  lemma {:induction false} ActionsFollowRequests(steps: seq<Step>)
    requires IsRun(steps)
    ensures ActionsIn(Trace(steps)) == AskedActions(Requests(steps))
  {
    hide IsStep, ActionsIn, AskedActions;
    if steps == [] {
      EffectsFew([]);
      NoPings();
    } else {
      var init, last := steps[..|steps| - 1], steps[|steps| - 1];
      Init(steps);
      ActionsFollowRequests(init);
      StepEffects(last);
      EffectsAppend(Trace(init), last.effects);
      PingsAppend(Requests(init), if last.request.Some? then [last.request.value] else []);
    }
  }

  lemma {:induction false} NoPowerOffBeforeEnd(steps: seq<Step>)
    requires IsRun(steps) && forall i :: 0 <= i < |steps| ==> !steps[i].over
    ensures Did(PowerOff) !in Trace(steps)
  {
    if steps != [] {
      Init(steps);
      NoPowerOffBeforeEnd(steps[..|steps| - 1]);
    }
  }

  /** Powering off is the last thing a session does. */
  lemma PowerOffIsLast(steps: seq<Step>)
    requires IsRun(steps) && Did(PowerOff) in Trace(steps)
    ensures var t := Trace(steps); t[|t| - 1] == Did(PowerOff) && Did(PowerOff) !in t[..|t| - 1]
    ensures steps[|steps| - 1].request == Some(Message.Shutdown)
  {
    var init, last := steps[..|steps| - 1], steps[|steps| - 1];
    Init(steps);
    NoPowerOffBeforeEnd(init);
    assert Did(PowerOff) in last.effects;
    LastPowersOff(last);
    assert Trace(steps) == Trace(init) + [Did(PowerOff)];
  }

  lemma LastPowersOff(s: Step)
    requires IsStep(s) && Did(PowerOff) in s.effects
    ensures s.effects == [Did(PowerOff)] && s.request == Some(Message.Shutdown)
  {
  }
}

/** One connection: the handshake, then requests until it ends. */
module Session {
  import opened Results
  import opened Bytes
  import opened Frames
  import opened Streams
  import opened Protocol

  /** The stream to the host and the guest's actions, with everything done so far. */
  class Link {
    const source: Source
    var log: seq<Effect>

    constructor (source: Source)
      ensures this.source == source && log == []
    {
      this.source := source;
      this.log := [];
    }

    /** A write that may fail. */
    method Send(m: Message) returns (ok: bool)
      modifies this
      ensures log == old(log) + if ok then [Sent(m)] else [SendFailed(m)]
    {
      ok := *;
      log := log + if ok then [Sent(m)] else [SendFailed(m)];
    }

    /** An action that may fail. */
    method Act(a: Action) returns (r: Result<(), AgentError>)
      modifies this
      ensures log == old(log) + [Did(a)]
    {
      r := *;
      log := log + [Did(a)];
    }
  }

  datatype Event = Received(message: Message) | Stopped | Late | Tick

  /** Bytes received or still to come. */
  ghost function Pending(reader: FrameReader<Message>, source: Source): (r: seq<byte>)
    reads reader, source
  {
    reader.buffer + source.data
  }

  lemma MessagesStep(decode: Decoder<Message>, s: seq<byte>)
    requires HasFrame(s)
    ensures Messages(decode, s)
            == (if First(decode, s).decoded.Valid? then [First(decode, s).decoded.message] else [])
            + Messages(decode, s[FrameLen(s)..])
  {
  }

  lemma NoMessages(decode: Decoder<Message>, s: seq<byte>)
    requires !HasFrame(s)
    ensures Messages(decode, s) == []
  {
  }

  /** `next`: the next valid message, skipping frames that are not one. */
  method NextMessage(decode: Decoder<Message>, link: Link, reader: FrameReader<Message>)
      returns (r: Result<Event, AgentError>)
    requires reader.Valid()
    modifies reader, link.source
    ensures reader.Valid()
    ensures r.Ok? && r.value.Received? ==>
              Messages(decode, old(Pending(reader, link.source)))
              == [r.value.message] + Messages(decode, Pending(reader, link.source))
    ensures r.Err? || !r.value.Received? ==>
              Messages(decode, Pending(reader, link.source)) == Messages(decode, old(Pending(reader, link.source)))
    ensures r == Err(Disconnected) ==> Messages(decode, old(Pending(reader, link.source))) == []
    ensures r == Err(ReadError) ==>
              Messages(decode, old(Pending(reader, link.source))) == [] || Fail(Other) in old(link.source.plan)
    ensures r.Err? ==> r == Err(Disconnected) || r == Err(ReadError)
    ensures r.Ok? && (r.value.Tick? || r.value.Late?) ==> Fail(TimedOut) in old(link.source.plan)
    ensures forall e :: e in link.source.plan ==> e in old(link.source.plan)
    ensures |Pending(reader, link.source)| <= |old(Pending(reader, link.source))|
            && |link.source.plan| <= |old(link.source.plan)|
    ensures r.Ok? && r.value.Received? ==> |Pending(reader, link.source)| < |old(Pending(reader, link.source))|
    ensures r.Ok? && r.value.Tick? ==> |link.source.plan| < |old(link.source.plan)|
  {
    hide Messages, First, HasFrame, FrameLen;
    ghost var all := Messages(decode, Pending(reader, link.source));
    while true
      invariant reader.Valid() && all == Messages(decode, Pending(reader, link.source))
      invariant |Pending(reader, link.source)| <= |old(Pending(reader, link.source))|
                && |link.source.plan| <= |old(link.source.plan)|
      invariant forall e :: e in link.source.plan ==> e in old(link.source.plan)
      decreases |Pending(reader, link.source)|
    {
      var stop: bool := *;
      if stop {
        return Ok(Stopped);
      }
      ghost var before := Pending(reader, link.source);
      var next := reader.Read(decode, link.source);
      match next
      case Again(error) =>
        if error == TimedOut {
          var late: bool := *;
          return Ok(if late then Late else Tick);
        }
        return Err(ReadError);
      case Ready(item) =>
        if !item.Frame? {
          NoMessages(decode, before);
          return Err(if item.Closed? then Disconnected else ReadError);
        }
        MessagesStep(decode, before);
        if item.decoded.Valid? {
          return Ok(Received(item.decoded.message));
        }
    }
  }

  // ----- the handshake -----

  predicate Ignored(m: Message) {
    !m.Welcome? && !m.Reject?
  }

  /** Messages before the first Welcome or Reject change nothing; that one decides. */
  ghost predicate Greeting(received: seq<Message>, r: Result<Option<u32>, AgentError>) {
    && (forall i :: 0 <= i < |received| - 1 ==> Ignored(received[i]))
    && (r.Ok? && r.value.Some? ==>
          && received != [] && received[|received| - 1].Welcome?
          && Negotiate(received[|received| - 1].version) == Ok(r.value.value))
    && (received != [] && received[|received| - 1].Welcome? ==> (r.Ok? && r.value.Some?) || r == Err(Version))
    && (received != [] && received[|received| - 1].Reject? ==> r == Err(Rejected))
  }

  /** Errors that mean no message is left: the host closed, or the stream ended badly with no read failing. */
  ghost predicate DrainedBy(error: AgentError, plan: seq<Streams.Event>) {
    error == Disconnected || (error == ReadError && Fail(Other) !in plan)
  }

  /** What the handshake sends: Hello, unless the socket could not be set up or the write failed. */
  function Opening(hello: Message, error: Option<AgentError>): (r: seq<Effect>) {
    if error == Some(SetTimeoutError) then [] else if error == Some(SendError) then [SendFailed(hello)]
      else [Sent(hello)]
  }

  method Handshake(decode: Decoder<Message>, link: Link, reader: FrameReader<Message>, hello: Message)
    returns (r: Result<Option<u32>, AgentError>, received: seq<Message>)
    requires reader.Valid()
    modifies link, reader, link.source
    ensures reader.Valid()
    ensures link.log == old(link.log) + Opening(hello, if r.Err? then Some(r.error) else None)
    ensures Messages(decode, old(Pending(reader, link.source)))
              == received + Messages(decode, Pending(reader, link.source))
    ensures Greeting(received, r)
    ensures forall e :: e in link.source.plan ==> e in old(link.source.plan)
    ensures r.Err? && DrainedBy(r.error, old(link.source.plan)) ==> Messages(decode, Pending(reader, link.source)) == []
    ensures r == Err(HandshakeTimeout) ==> Fail(TimedOut) in old(link.source.plan)
    ensures r.Err? ==>
              r.error in {SetTimeoutError, SendError, Disconnected, ReadError, HandshakeTimeout, Rejected, Version}
  {
    hide Messages;
    received := [];
    var armed: bool := *;
    if !armed {
      return Err(SetTimeoutError), [];
    }
    var ok := link.Send(hello);
    if !ok {
      return Err(SendError), [];
    }
    ghost var all := Messages(decode, Pending(reader, link.source));
    while true
      invariant reader.Valid() && all == received + Messages(decode, Pending(reader, link.source))
      invariant link.log == old(link.log) + [Sent(hello)]
      invariant forall i :: 0 <= i < |received| ==> Ignored(received[i])
      invariant forall e :: e in link.source.plan ==> e in old(link.source.plan)
      decreases |Pending(reader, link.source)|, |link.source.plan|
    {
      ghost var before := received;
      var next := NextMessage(decode, link, reader);
      if next.Err? {
        return Err(next.error), received;
      }
      match next.value
      case Stopped => return Ok(None), received;
      case Tick =>
      case Late => return Err(HandshakeTimeout), received;
      case Received(m) =>
        received := received + [m];
        if m.Welcome? {
          var version := Negotiate(m.version);
          return if version.Ok? then Ok(Some(version.value)) else Err(version.error), received;
        }
        if m.Reject? {
          return Err(Rejected), received;
        }
    }
  }

  // ----- requests -----

  datatype SessionEnd = PoweredOff | StoppedByUser | Ended(handshaken: bool, error: AgentError)

  /** Read and reply: `ClipboardGet` and `WindowListGet`. */
  method Reply(link: Link, request: Message, a: Action) returns (r: Result<(), AgentError>, step: Step)
    requires (request.ClipboardGet? && a == GetClipboard) || (request.WindowListGet? && a == ListWindows)
    modifies link
    ensures link.log == old(link.log) + step.effects && IsStep(step) && step.request == Some(request)
    ensures step.over <==> r.Err?
  {
    var acted := link.Act(a);
    if acted.Err? {
      return acted, Step(Some(request), [Did(a)], true);
    }
    var text: Text := *;
    var windows: seq<GuestWindow> := *;
    var reply := if request.ClipboardGet? then ClipboardGetOk(text) else WindowListOk(windows);
    var ok := link.Send(reply);
    r := if ok then Ok(()) else Err(SendError);
    step := Step(Some(request), [Did(a)] + if ok then [Sent(reply)] else [SendFailed(reply)], !ok);
    assert step.effects[1..] == [step.effects[1]];
  }

  /** An action whose failure is only logged, unless it says the connection broke. */
  method Perform(link: Link, request: Message, a: Action) returns (r: Result<(), AgentError>, step: Step)
    requires Asks(request) == [a] && (request.SetResolution? || request.ClipboardSet? || request.ShareMount?)
    modifies link
    ensures link.log == old(link.log) + step.effects && IsStep(step) && step.request == Some(request)
    ensures step.over <==> r.Err?
  {
    var acted := link.Act(a);
    var broken := acted.Err? && IsFrameError(acted.error);
    r := if broken then acted else Ok(());
    step := Step(Some(request), [Did(a)], broken);
  }

  /** One request. `Ok(true)` when the host asked for shutdown and it was done. */
  method Handle(link: Link, request: Message) returns (r: Result<bool, AgentError>, step: Step)
    modifies link
    ensures link.log == old(link.log) + step.effects && IsStep(step) && step.request == Some(request)
    ensures step.over <==> r.Err? || r.value
    ensures r == Ok(true) ==> request == Message.Shutdown
  {
    match request
    case Ping(n) =>
      var ok := link.Send(Pong(n));
      r := if ok then Ok(false) else Err(SendError);
      step := Step(Some(request), if ok then [Sent(Pong(n))] else [SendFailed(Pong(n))], !ok);
    case SetResolution(w, h) =>
      var done, s := Perform(link, request, Resize(w, h));
      return if done.Ok? then Ok(false) else Err(done.error), s;
    case ClipboardSet(text) =>
      var done, s := Perform(link, request, SetClipboard(text));
      return if done.Ok? then Ok(false) else Err(done.error), s;
    case ClipboardGet =>
      var done, s := Reply(link, request, GetClipboard);
      return if done.Ok? then Ok(false) else Err(done.error), s;
    case ShareMount(tag, at) =>
      var done, s := Perform(link, request, Mount(tag, at));
      return if done.Ok? then Ok(false) else Err(done.error), s;
    case WindowListGet =>
      var done, s := Reply(link, request, ListWindows);
      return if done.Ok? then Ok(false) else Err(done.error), s;
    case Shutdown =>
      var done := link.Act(PowerOff);
      return if done.Ok? then Ok(true) else Err(done.error), Step(Some(request), [Did(PowerOff)], true);
    case _ =>
      return Ok(false), Step(Some(request), [], false);
  }

  /** `push_clipboard`. */
  method PushClipboard(link: Link) returns (r: Result<(), AgentError>, step: Step)
    modifies link
    ensures link.log == old(link.log) + step.effects && IsStep(step) && step.request == None
    ensures step.over <==> r.Err?
  {
    var push: Option<Text> := *;
    match push
    case None => return Ok(()), Step(None, [], false);
    case Some(text) =>
      if |text| > MAX_CLIPBOARD_BYTES {
        return Ok(()), Step(None, [], false);
      }
      var message := ClipboardSet(text);
      var ok := link.Send(message);
      r := if ok then Ok(()) else Err(SendError);
      step := Step(None, if ok then [Sent(message)] else [SendFailed(message)], !ok);
  }

  method ServeRequests(decode: Decoder<Message>, link: Link, reader: FrameReader<Message>)
    returns (r: Result<SessionEnd, AgentError>, steps: seq<Step>)
    requires reader.Valid()
    modifies link, reader, link.source
    ensures reader.Valid()
    ensures IsRun(steps) && link.log == old(link.log) + Trace(steps)
    ensures Messages(decode, old(Pending(reader, link.source)))
              == Requests(steps) + Messages(decode, Pending(reader, link.source))
    ensures r.Ok? ==> r.value == PoweredOff || r.value == StoppedByUser
    ensures r == Ok(PoweredOff) ==> steps != [] && steps[|steps| - 1].request == Some(Message.Shutdown)
    ensures r.Err? && !EndedByStep(steps) && DrainedBy(r.error, old(link.source.plan)) ==>
              Messages(decode, Pending(reader, link.source)) == []
    ensures r == Err(Idle) && !EndedByStep(steps) ==> Fail(TimedOut) in old(link.source.plan)
    ensures r.Err? && !EndedByStep(steps) ==> r.error in {Idle, Disconnected, ReadError}
  {
    hide Messages, IsStep, IsRun, Trace, Requests;
    steps := [];
    NoSteps();
    ghost var all := Messages(decode, Pending(reader, link.source));
    while true
      invariant reader.Valid() && IsRun(steps) && (forall i :: 0 <= i < |steps| ==> !steps[i].over)
      invariant link.log == old(link.log) + Trace(steps)
      invariant all == Requests(steps) + Messages(decode, Pending(reader, link.source))
      invariant forall e :: e in link.source.plan ==> e in old(link.source.plan)
      decreases |Pending(reader, link.source)|, |link.source.plan|
    {
      var next := NextMessage(decode, link, reader);
      if next.Err? {
        return Err(next.error), steps;
      }
      match next.value
      case Stopped => return Ok(StoppedByUser), steps;
      case Late => return Err(Idle), steps;
      case Tick =>
        var pushed, step := PushClipboard(link);
        Append(steps, step);
        RunGrows(steps, step);
        steps := steps + [step];
        if pushed.Err? {
          return Err(pushed.error), steps;
        }
      case Received(m) =>
        var handled, step := Handle(link, m);
        Append(steps, step);
        RunGrows(steps, step);
        steps := steps + [step];
        if handled.Err? {
          return Err(handled.error), steps;
        }
        if handled.value {
          return Ok(PoweredOff), steps;
        }
    }
  }

  /**
    `serve`. Hello goes out first. Nothing else happens unless a Welcome
    arrives; after it the requests handled are exactly the messages that
    follow it in the stream, in order, none lost with the handshake's bytes,
    and none left when the host has closed the connection. Seen from outside,
    pings are answered in order, actions run in request order and powering
    off is the last thing done.
   */
  method Serve(decode: Decoder<Message>, link: Link, hello: Message)
    returns (end: SessionEnd, received: seq<Message>, steps: seq<Step>, ghost rest: seq<Message>)
    requires hello.Hello?
    modifies link, link.source
    ensures Messages(decode, old(link.source.data)) == received + Requests(steps) + rest
    ensures end.Ended? && !EndedByStep(steps) && DrainedBy(end.error, old(link.source.plan)) ==> rest == []
    ensures end.Ended? && !EndedByStep(steps) && end.error in {HandshakeTimeout, Idle} ==>
              Fail(TimedOut) in old(link.source.plan)
    ensures link.log == old(link.log) + Opening(hello, HandshakeError(end)) + Trace(steps)
    ensures IsRun(steps) && Orderly(link.log[|old(link.log)|..], Requests(steps))
    ensures forall i :: 0 <= i < |received| - 1 ==> Ignored(received[i])
    ensures steps != [] || end == PoweredOff || (end.Ended? && end.handshaken) ==>
              received != [] && received[|received| - 1].Welcome?
              && received[|received| - 1].version >= MIN_PROTOCOL_VERSION
    ensures end == PoweredOff ==> steps != [] && steps[|steps| - 1].request == Some(Message.Shutdown)
  {
    hide Messages, IsStep, Trace, Requests, IsRun, Orderly, Opening;
    var reader := new FrameReader<Message>();
    assert [] + link.source.data == link.source.data;
    ghost var before := link.log;
    var greeted;
    greeted, received := Handshake(decode, link, reader, hello);
    steps := [];
    NoSteps();
    if greeted.Err? {
      end := Ended(false, greeted.error);
    } else if greeted.value.None? {
      end := StoppedByUser;
    } else {
      var served;
      served, steps := ServeRequests(decode, link, reader);
      end := if served.Ok? then served.value else Ended(true, served.error);
    }
    rest := Messages(decode, Pending(reader, link.source));
    ghost var did := Opening(hello, HandshakeError(end)) + Trace(steps);
    assert link.log[|before|..] == did;
    SessionIsOrderly(hello, HandshakeError(end), steps);
  }

  /** The error of a session that ended before its Welcome. */
  function HandshakeError(end: SessionEnd): (r: Option<AgentError>) {
    if end.Ended? && !end.handshaken then Some(end.error) else None
  }

  /** A step, not the stream, ended the session. */
  predicate EndedByStep(steps: seq<Step>) {
    steps != [] && steps[|steps| - 1].over
  }

  /** What is seen of a session: answers to the pings and actions for the requests, in order, power-off last. */
  ghost predicate Orderly(did: seq<Effect>, requests: seq<Message>) {
    var pings, pongs := PingsIn(requests), PongsSent(did);
    && PongsTried(did) == pings
    && (pongs == pings || (pings != [] && pongs == pings[..|pings| - 1]))
    && ActionsIn(did) == AskedActions(requests)
    && (Did(PowerOff) in did ==> did[|did| - 1] == Did(PowerOff) && Did(PowerOff) !in did[..|did| - 1])
  }

  lemma OpeningIsQuiet(hello: Message, error: Option<AgentError>)
    requires hello.Hello?
    ensures var o := Opening(hello, error);
            PongsTried(o) == [] && PongsSent(o) == [] && ActionsIn(o) == [] && Did(PowerOff) !in o
  {
    hide PongsTried, PongsSent, ActionsIn;
    EffectsFew([]);
    EffectsOne(Sent(hello));
    EffectsOne(SendFailed(hello));
  }

  lemma SessionIsOrderly(hello: Message, error: Option<AgentError>, steps: seq<Step>)
    requires hello.Hello? && IsRun(steps)
    ensures Orderly(Opening(hello, error) + Trace(steps), Requests(steps))
  {
    hide PongsTried, PongsSent, ActionsIn, PingsIn, AskedActions, Trace, Requests, IsRun, Opening;
    var o, t := Opening(hello, error), Trace(steps);
    OpeningIsQuiet(hello, error);
    EffectsAppend(o, t);
    PongsAnswerPings(steps);
    ActionsFollowRequests(steps);
    if Did(PowerOff) in o + t {
      PowerOffIsLast(steps);
      assert (o + t)[..|o + t| - 1] == o + t[..|t| - 1];
    }
  }

  lemma NoSteps()
    ensures Trace([]) == [] && Requests([]) == [] && IsRun([])
  {
  }
}
