/** Frames on a byte stream: a big-endian length, then that many bytes of payload. */
module Frames {
  import opened Results
  import opened Bytes

  const MAX_FRAME: nat := 256 * 1024

  /** What a payload decodes to; both failures leave the stream in sync. */
  datatype Decoded<M> = Valid(message: M) | UnknownType | Malformed

  type Decoder<!M> = seq<byte> -> Decoded<M>

  /** What the next frame of a stream turns out to be. */
  datatype Item<M> =
    | Frame(decoded: Decoded<M>)
    | Closed
    | UnexpectedEof
    | BadLength(len: nat)

  function BigEndian(s: seq<byte>): (v: nat)
    requires |s| == 4
  {
    s[0] as int * 0x100_0000 + s[1] as int * 0x1_0000 + s[2] as int * 0x100 + s[3]
  }

  function ToBigEndian(v: nat): (s: seq<byte>)
    requires v < U32
    ensures |s| == 4 && BigEndian(s) == v
  {
    var s: seq<byte> := [v / 0x100_0000, v / 0x1_0000 % 0x100, v / 0x100 % 0x100, v % 0x100];
    assert v / 0x1_0000 == v / 0x100_0000 * 0x100 + v / 0x1_0000 % 0x100;
    assert v / 0x100 == v / 0x1_0000 * 0x100 + v / 0x100 % 0x100;
    s
  }

  predicate GoodLength(len: nat) {
    0 < len <= MAX_FRAME
  }

  // ----- what a finished stream holds -----

  /** A whole frame is at the front of `s`. */
  predicate HasFrame(s: seq<byte>) {
    |s| >= 4 && GoodLength(BigEndian(s[..4])) && 4 + BigEndian(s[..4]) <= |s|
  }

  function FrameLen(s: seq<byte>): (n: nat)
    requires HasFrame(s)
    ensures 4 < n <= |s| && n <= 4 + MAX_FRAME
  {
    4 + BigEndian(s[..4])
  }

  /** The first item of a stream that ends after `s`. */
  function First<M>(decode: Decoder<M>, s: seq<byte>): (r: Item<M>)
    ensures r.Frame? <==> HasFrame(s)
    ensures r.Closed? <==> s == []
  {
    if s == [] then Closed
    else if |s| < 4 then UnexpectedEof
    else if !GoodLength(BigEndian(s[..4])) then BadLength(BigEndian(s[..4]))
    else if |s| < 4 + BigEndian(s[..4]) then UnexpectedEof
    else Frame(decode(s[4..FrameLen(s)]))
  }

  /** Every item up to and including the one that ends the stream. */
  function Items<M>(decode: Decoder<M>, s: seq<byte>): (r: seq<Item<M>>)
    ensures r != [] && !r[|r| - 1].Frame? && forall i :: 0 <= i < |r| - 1 ==> r[i].Frame?
    decreases |s|
  {
    if HasFrame(s) then [First(decode, s)] + Items(decode, s[FrameLen(s)..]) else [First(decode, s)]
  }

  lemma ItemsUnfold<M>(decode: Decoder<M>, s: seq<byte>)
    ensures Items(decode, s) == [First(decode, s)] + if HasFrame(s) then Items(decode, s[FrameLen(s)..]) else []
  {
    hide First, HasFrame, FrameLen;
  }

  lemma ItemsStep<M>(decode: Decoder<M>, done: seq<Item<M>>, s: seq<byte>)
    ensures HasFrame(s) ==> done + Items(decode, s) == done + [First(decode, s)] + Items(decode, s[FrameLen(s)..])
    ensures !HasFrame(s) ==> done + Items(decode, s) == done + [First(decode, s)]
  {
    hide First, HasFrame, FrameLen, Items;
    ItemsUnfold(decode, s);
    if HasFrame(s) {
      Associate(done, [First(decode, s)], Items(decode, s[FrameLen(s)..]));
    } else {
      assert [First(decode, s)] + [] == [First(decode, s)];
    }
  }

  /** The valid messages among them. */
  function Messages<M>(decode: Decoder<M>, s: seq<byte>): (r: seq<M>)
    decreases |s|
  {
    if !HasFrame(s) then []
    else
      (if First(decode, s).decoded.Valid? then [First(decode, s).decoded.message] else [])
      + Messages(decode, s[FrameLen(s)..])
  }

  /** A frame at the front, or a bad length, does not depend on what follows. */
  lemma FrontStays<M>(decode: Decoder<M>, s: seq<byte>, more: seq<byte>)
    ensures HasFrame(s) ==>
              HasFrame(s + more) && FrameLen(s + more) == FrameLen(s) && First(decode, s + more) == First(decode, s)
    ensures HasFrame(s) ==> (s + more)[FrameLen(s)..] == s[FrameLen(s)..] + more
    ensures First(decode, s).BadLength? ==> First(decode, s + more) == First(decode, s)
  {
    if |s| >= 4 {
      assert (s + more)[..4] == s[..4];
      if HasFrame(s) {
        assert (s + more)[4..FrameLen(s)] == s[4..FrameLen(s)];
      }
    }
  }

  // ----- encoding -----

  /** `encode`, of a payload already serialized. */
  function EncodeFrame(payload: seq<byte>): (r: Option<seq<byte>>)
    ensures r.Some? <==> |payload| <= MAX_FRAME
  {
    if |payload| > MAX_FRAME then None else Some(ToBigEndian(|payload|) + payload)
  }

  /** An encoded frame reads back, whatever follows, exactly when its payload is not empty. */
  lemma FrameRoundTrip<M>(decode: Decoder<M>, payload: seq<byte>, more: seq<byte>)
    requires |payload| <= MAX_FRAME
    ensures var s := EncodeFrame(payload).value + more;
            if payload == [] then First(decode, s) == BadLength(0)
            else HasFrame(s) && First(decode, s) == Frame(decode(payload)) && s[FrameLen(s)..] == more
  {
    var head := ToBigEndian(|payload|);
    var s := head + payload + more;
    assert s[..4] == head;
    if payload != [] {
      assert s[4..4 + |payload|] == payload;
    }
  }

  function EncodeFrames(payloads: seq<seq<byte>>): (r: seq<byte>)
    requires forall i :: 0 <= i < |payloads| ==> 0 < |payloads[i]| <= MAX_FRAME
  {
    if payloads == [] then [] else EncodeFrame(payloads[0]).value + EncodeFrames(payloads[1..])
  }

  /** A stream of encoded frames gives back their payloads, decoded, in order, then a clean close. */
  lemma {:induction false} FramesRoundTrip<M>(decode: Decoder<M>, payloads: seq<seq<byte>>)
    requires forall i :: 0 <= i < |payloads| ==> 0 < |payloads[i]| <= MAX_FRAME
    ensures Items(decode, EncodeFrames(payloads))
            == seq(|payloads|, i requires 0 <= i < |payloads| => Frame(decode(payloads[i]))) + [Closed]
  {
    hide EncodeFrame, HasFrame, FrameLen, First;
    if payloads == [] {
      NothingLeft(decode);
    } else {
      FrameRoundTrip(decode, payloads[0], EncodeFrames(payloads[1..]));
      FramesRoundTrip(decode, payloads[1..]);
    }
  }

  lemma NothingLeft<M>(decode: Decoder<M>)
    ensures Items(decode, []) == [Closed]
  {
  }
}

/** The two ways to read a stream: one message at a time, and buffered across timeouts. */
module Streams {
  import opened Results
  import opened Bytes
  import opened Frames

  datatype IoError = TimedOut | Interrupted | Other

  /** What one read call does: hand over up to `n` bytes, or fail. */
  datatype Event = Give(n: nat) | Fail(error: IoError)

  datatype ReadResult = Got(bytes: seq<byte>) | Failed(error: IoError)

  /**
    A stream: the bytes still to come, and how the coming reads will behave.
    Reads past the plan give all they can, so every finite behaviour of a
    socket is some plan.
   */
  class Source {
    var data: seq<byte>
    var plan: seq<Event>

    constructor (data: seq<byte>, plan: seq<Event>)
      ensures this.data == data && this.plan == plan
    {
      this.data := data;
      this.plan := plan;
    }

    /** `Read::read` into `max` bytes; nothing only at the end of the stream. */
    method Read(max: nat) returns (r: ReadResult)
      requires max > 0
      modifies this
      ensures r.Got? ==> old(data) == r.bytes + data && |r.bytes| <= max && (r.bytes == [] <==> old(data) == [])
      ensures r.Failed? ==> data == old(data) && Fail(r.error) in old(plan)
      ensures plan == if old(plan) == [] then [] else old(plan)[1..]
    {
      var event := if plan == [] then Give(max) else plan[0];
      plan := if plan == [] then [] else plan[1..];
      match event
      case Fail(error) => return Failed(error);
      case Give(n) =>
        var wanted := if n == 0 then 1 else if n < max then n else max;
        var given := if wanted < |data| then wanted else |data|;
        r := Got(data[..given]);
        data := data[given..];
    }
  }

  // ----- one message at a time -----

  /** What one call that reads a message returns: an item, or the failed read that stopped it. */
  datatype Next<M> = Ready(item: Item<M>) | Again(error: IoError)

  /** What filling a buffer comes to: all of it, as much as the stream had, or a failed read. */
  datatype Fill = Full(bytes: seq<byte>) | Short(bytes: seq<byte>) | Broken(error: IoError)

  ghost predicate IsSuffix(s: seq<byte>, whole: seq<byte>) {
    |s| <= |whole| && s == whole[|whole| - |s|..]
  }

  /** Read until `n` bytes are there, retrying interruptions: the prefix loop, and `read_exact`. */
  method ReadFully(source: Source, n: nat) returns (r: Fill)
    modifies source
    ensures r.Full? ==> |r.bytes| == n && old(source.data) == r.bytes + source.data
    ensures r.Short? ==> |r.bytes| < n && r.bytes == old(source.data) && source.data == []
    ensures r.Broken? ==>
              Fail(r.error) in old(source.plan) && r.error != Interrupted && IsSuffix(source.data, old(source.data))
    ensures forall e :: e in source.plan ==> e in old(source.plan)
  {
    var got: seq<byte> := [];
    ghost var all := source.data;
    while |got| < n
      invariant |got| <= n && all == got + source.data
      invariant forall e :: e in source.plan ==> e in old(source.plan)
      decreases |source.plan|, n - |got|
    {
      var read := source.Read(n - |got|);
      match read
      case Failed(error) =>
        if error != Interrupted {
          return Broken(error);
        }
      case Got(bytes) =>
        if bytes == [] {
          return Short(got);
        }
        got := got + bytes;
    }
    return Full(got);
  }

  /**
    `read_message`: the first item of the stream, consuming exactly its frame
    or the prefix of a bad length; a failed read loses what was read before it.
   */
  method ReadMessage<M>(decode: Decoder<M>, source: Source) returns (r: Next<M>)
    modifies source
    ensures r.Ready? ==> r.item == First(decode, old(source.data))
    ensures r.Ready? && r.item.Frame? ==>
              HasFrame(old(source.data)) && source.data == old(source.data)[FrameLen(old(source.data))..]
    ensures r.Ready? && r.item.BadLength? ==> source.data == old(source.data)[4..]
    ensures r.Again? ==>
              Fail(r.error) in old(source.plan) && r.error != Interrupted && IsSuffix(source.data, old(source.data))
    ensures forall e :: e in source.plan ==> e in old(source.plan)
  {
    hide BigEndian;
    ghost var all := source.data;
    var prefix := ReadFully(source, 4);
    if prefix.Broken? {
      return Again(prefix.error);
    }
    if prefix.Short? {
      return Ready(if prefix.bytes == [] then Closed else UnexpectedEof);
    }
    assert all[..4] == prefix.bytes && all[4..] == source.data;
    var len := BigEndian(prefix.bytes);
    if !GoodLength(len) {
      return Ready(BadLength(len));
    }
    var payload := ReadFully(source, len);
    if payload.Broken? {
      return Again(payload.error);
    }
    if payload.Short? {
      return Ready(UnexpectedEof);
    }
    assert all[4..][..len] == all[4..4 + len] && all[4..][len..] == all[4 + len..];
    return Ready(Frame(decode(payload.bytes)));
  }

  /** Read messages until the stream ends or a read fails: the items, or the first of them. */
  method ReadAllMessages<M>(decode: Decoder<M>, source: Source) returns (items: seq<Item<M>>, broken: bool)
    modifies source
    ensures !broken ==> items == Items(decode, old(source.data))
    ensures broken ==>
              items < Items(decode, old(source.data)) && exists e :: Fail(e) in old(source.plan) && e != Interrupted
  {
    hide Items, First, HasFrame, FrameLen;
    items := [];
    ghost var all := Items(decode, source.data);
    while true
      invariant all == items + Items(decode, source.data)
      invariant forall e :: e in source.plan ==> e in old(source.plan)
      decreases |source.data|
    {
      ItemsStep(decode, items, source.data);
      var next := ReadMessage(decode, source);
      match next
      case Again(error) =>
        assert Fail(error) in old(source.plan);
        return items, true;
      case Ready(item) =>
        items := items + [item];
        if !item.Frame? {
          return items, false;
        }
    }
  }

  // ----- buffered -----

  const CHUNK: nat := 4096

  class FrameReader<M> {
    var buffer: seq<byte>

    constructor ()
      ensures buffer == []
    {
      buffer := [];
    }

    /** The buffer never outgrows one frame and one chunk. */
    ghost predicate Valid()
      reads this
    {
      |buffer| <= MAX_FRAME + 4099
    }

    /** A whole frame, or the reason there will never be one, at the front of the buffer. */
    method TakeFrame(decode: Decoder<M>) returns (r: Option<Item<M>>)
      modifies this
      ensures r.None? ==>
                buffer == old(buffer) && |buffer| < 4 + MAX_FRAME && !HasFrame(buffer)
                && !First(decode, buffer).BadLength?
      ensures r.Some? ==> r.value == First(decode, old(buffer)) && (r.value.Frame? || r.value.BadLength?)
      ensures r.Some? && r.value.Frame? ==> buffer == old(buffer)[FrameLen(old(buffer))..]
      ensures r.Some? && r.value.BadLength? ==> buffer == old(buffer)
    {
      if |buffer| < 4 {
        return None;
      }
      var len := BigEndian(buffer[..4]);
      if !GoodLength(len) {
        return Some(BadLength(len));
      }
      if |buffer| < 4 + len {
        return None;
      }
      var payload := buffer[4..4 + len];
      buffer := buffer[4 + len..];
      return Some(Frame(decode(payload)));
    }

    /**
      `FrameReader::read`. Whatever the chunks and whichever reads fail, the
      next item is the first of the bytes received and still to come, and no
      byte is lost.
     */
    method Read(decode: Decoder<M>, source: Source) returns (r: Next<M>)
      requires Valid()
      modifies this, source
      ensures Valid()
      ensures r.Ready? ==> r.item == First(decode, old(buffer + source.data))
      ensures r.Ready? && r.item.Frame? ==>
                var all := old(buffer + source.data); HasFrame(all) && buffer + source.data == all[FrameLen(all)..]
      ensures r.Again? || !r.item.Frame? ==> buffer + source.data == old(buffer + source.data)
      ensures r.Again? ==> Fail(r.error) in old(source.plan) && r.error != Interrupted
      ensures |source.plan| <= |old(source.plan)| && (r.Again? ==> |source.plan| < |old(source.plan)|)
      ensures forall e :: e in source.plan ==> e in old(source.plan)
    {
      ghost var all := buffer + source.data;
      while true
        invariant Valid() && buffer + source.data == all
        invariant |source.plan| <= |old(source.plan)| && forall e :: e in source.plan ==> e in old(source.plan)
        decreases |source.plan|, |source.data|
      {
        ghost var before, rest := buffer, source.data;
        var taken := TakeFrame(decode);
        if taken.Some? {
          FrontStays(decode, before, rest);
          return Ready(taken.value);
        }
        var read := source.Read(CHUNK);
        match read
        case Got(bytes) =>
          if bytes == [] {
            assert all == buffer;
            return Ready(if buffer == [] then Closed else UnexpectedEof);
          }
          buffer := buffer + bytes;
        case Failed(error) =>
          if error != Interrupted {
            return Again(error);
          }
      }
    }
  }

  /**
    Chunk independence: a fresh reader, retried after every timeout, delivers
    the items of the stream, whatever the chunks and wherever the timeouts. A
    failure of another kind only cuts the list short.
   */
  method ReadAllBuffered<M>(decode: Decoder<M>, source: Source) returns (items: seq<Item<M>>, broken: bool)
    modifies source
    ensures !broken ==> items == Items(decode, old(source.data))
    ensures broken ==> items < Items(decode, old(source.data)) && Fail(Other) in old(source.plan)
  {
    hide Items, First, HasFrame, FrameLen;
    items := [];
    var reader := new FrameReader<M>();
    ghost var all := Items(decode, source.data);
    assert [] + source.data == source.data;
    while true
      invariant reader.Valid() && fresh(reader) && all == items + Items(decode, reader.buffer + source.data)
      invariant forall e :: e in source.plan ==> e in old(source.plan)
      decreases |reader.buffer + source.data|, |source.plan|
    {
      ItemsStep(decode, items, reader.buffer + source.data);
      var next := reader.Read(decode, source);
      match next
      case Again(error) =>
        if error == Other {
          return items, true;
        }
      case Ready(item) =>
        items := items + [item];
        if !item.Frame? {
          return items, false;
        }
    }
  }
}
