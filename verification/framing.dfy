/** The media link between the camera unit and the navigation host.

    Every frame is an 8-byte header followed by its payload: a 5-byte type
    tag (`b'video'` or `b'audio'`) and the payload length as 3 big-endian
    bytes (raspberry_pi_sender.py). The receiver appends whatever `recv`
    returns to a buffer and takes complete frames off its front, handing
    each payload to the handler its tag names (bluetooth_receiver.py). */
module Framing {
  import opened Common
  import opened Text
  import opened Utf8

  const TagSize := 5
  const HeaderSize := 8
  /** Lengths must fit in three bytes. */
  const SizeLimit := 0x100_0000

  datatype Kind = Video | Audio

  /** The handler name, which is also the tag text. */
  function Name(k: Kind): string {
    match k
    case Video => "video"
    case Audio => "audio"
  }

  /** The tag is the name's ASCII bytes. */
  function Tag(k: Kind): (b: seq<Byte>)
    ensures |b| == TagSize
  {
    AsciiBytes(Name(k))
  }

  /** `n.to_bytes(3, byteorder='big')`; `None` stands for the
      `OverflowError` a length of 2^24 or more raises. */
  function SizeBytes(n: nat): (r: Option<seq<Byte>>)
    ensures r.Some? <==> n < SizeLimit
    ensures r.Some? ==> |r.value| == 3
  {
    if n < SizeLimit then Some([n / 0x1_0000, n / 0x100 % 0x100, n % 0x100]) else None
  }

  /** `int.from_bytes(b[i:i+3], byteorder='big')`. */
  function ReadSize(b: seq<Byte>, i: nat): (n: nat)
    requires i + 3 <= |b|
    ensures n < SizeLimit
  {
    b[i] as int * 0x1_0000 + b[i + 1] as int * 0x100 + b[i + 2] as int
  }

  /** Writing a length and reading it back gives the length. */
  lemma {:induction false} SizeRoundTrip(n: nat)
    requires n < SizeLimit
    ensures ReadSize(SizeBytes(n).value, 0) == n
  {
  }

  /** The bytes one `send` call puts on the link for one payload:
      `header + data`, or `None` when the header cannot be built. */
  function Frame(k: Kind, payload: seq<Byte>): (r: Option<seq<Byte>>)
    ensures r.Some? <==> |payload| < SizeLimit
    ensures r.Some? ==> |r.value| == HeaderSize + |payload|
  {
    match SizeBytes(|payload|)
    case None => None
    case Some(size) => Some(Tag(k) + size + payload)
  }

  /** A frame is the tag, the payload length read back by the receiver, and
      the payload. */
  lemma {:induction false} FrameLayout(k: Kind, payload: seq<Byte>)
    requires |payload| < SizeLimit
    ensures var f := Frame(k, payload).value;
      && f[..TagSize] == Tag(k) && f[HeaderSize..] == payload
      && ReadSize(f, TagSize) == |payload|
  {
    var size := SizeBytes(|payload|).value;
    var f := Tag(k) + size + payload;
    assert f[..TagSize] == Tag(k) && f[HeaderSize..] == payload;
    assert f[TagSize] == size[0] && f[TagSize + 1] == size[1] && f[TagSize + 2] == size[2];
    SizeRoundTrip(|payload|);
  }

  // ---------------------------------------------------------------------
  // Sender

  /** One sender thread's view: whether the socket is connected, the payloads
      still queued, and the bytes sent so far. */
  datatype Sender = Sender(connected: bool, pending: seq<seq<Byte>>, wire: seq<Byte>)

  /** `send_video_frame` / `send_audio_data`: queue a payload. */
  function Enqueue(s: Sender, payload: seq<Byte>): (r: Sender)
    ensures r.pending == s.pending + [payload]
    ensures r.connected == s.connected && r.wire == s.wire
  {
    s.(pending := s.pending + [payload])
  }

  /** One iteration of the sender loop. An empty queue waits. Otherwise the
      oldest payload is taken; it is sent only while connected, and it is
      lost when not. A payload too long for the header raises, and the
      handler then reconnects when disconnected; `reconnected` is what that
      `connect()` call returns. */
  function SendStep(s: Sender, k: Kind, reconnected: bool): (r: Sender)
    ensures s.pending == [] ==> r == s
    ensures s.pending != [] ==> r.pending == s.pending[1..]
    ensures s.pending != [] && s.connected && |s.pending[0]| < SizeLimit ==>
      r.wire == s.wire + Frame(k, s.pending[0]).value && r.connected
    ensures s.pending != [] && !(s.connected && |s.pending[0]| < SizeLimit) ==> r.wire == s.wire
    ensures s.pending != [] && |s.pending[0]| >= SizeLimit && !s.connected ==> r.connected == reconnected
    ensures s.pending != [] && !(|s.pending[0]| >= SizeLimit && !s.connected) ==> r.connected == s.connected
  {
    if s.pending == [] then s
    else
      var next := s.(pending := s.pending[1..]);
      match Frame(k, s.pending[0])
      case None => if !s.connected then next.(connected := reconnected) else next
      case Some(f) => if s.connected then next.(wire := s.wire + f) else next
  }

  /** `n` iterations of the sender loop. */
  function Run(s: Sender, k: Kind, n: nat, reconnected: bool): Sender
    decreases n
  {
    if n == 0 then s else Run(SendStep(s, k, reconnected), k, n - 1, reconnected)
  }

  predicate AllFit(ps: seq<seq<Byte>>) {
    forall i :: 0 <= i < |ps| ==> |ps[i]| < SizeLimit
  }

  /** The frames of `ps`, back to back. */
  function Frames(k: Kind, ps: seq<seq<Byte>>): seq<Byte>
    requires AllFit(ps)
  {
    if ps == [] then [] else Frame(k, ps[0]).value + Frames(k, ps[1..])
  }

  /** A connected sender works through its queue in order, one frame per
      payload, and stays connected. */
  lemma {:induction false} SenderStreams(s: Sender, k: Kind, reconnected: bool)
    requires s.connected && AllFit(s.pending)
    ensures Run(s, k, |s.pending|, reconnected) == Sender(true, [], s.wire + Frames(k, s.pending))
    decreases |s.pending|
  {
    if s.pending != [] {
      var t := SendStep(s, k, reconnected);
      SendsHead(s, k, reconnected);
      assert Run(s, k, |s.pending|, reconnected) == Run(t, k, |t.pending|, reconnected);
      SenderStreams(t, k, reconnected);
    }
  }

  /** One connected step: the head payload's frame goes out. */
  lemma {:induction false} SendsHead(s: Sender, k: Kind, reconnected: bool)
    requires s.connected && AllFit(s.pending) && s.pending != []
    ensures var t := SendStep(s, k, reconnected);
      && t.connected && AllFit(t.pending) && |t.pending| == |s.pending| - 1
      && t.wire + Frames(k, t.pending) == s.wire + Frames(k, s.pending)
  {
    var f := Frame(k, s.pending[0]).value;
    var t := SendStep(s, k, reconnected);
    assert t == Sender(true, s.pending[1..], s.wire + f) by {
      StepConnected(s, k, reconnected);
    }
    assert AllFit(s.pending[1..]) && Frames(k, s.pending) == f + Frames(k, s.pending[1..]) by {
      FramesCons(k, s.pending);
    }
    assert (s.wire + f) + Frames(k, s.pending[1..]) == s.wire + (f + Frames(k, s.pending[1..]));
  }

  lemma {:induction false} StepConnected(s: Sender, k: Kind, reconnected: bool)
    requires s.connected && s.pending != [] && |s.pending[0]| < SizeLimit
    ensures SendStep(s, k, reconnected) == Sender(true, s.pending[1..], s.wire + Frame(k, s.pending[0]).value)
  {
  }

  lemma {:induction false} FramesCons(k: Kind, ps: seq<seq<Byte>>)
    requires AllFit(ps) && ps != []
    ensures AllFit(ps[1..]) && Frames(k, ps) == Frame(k, ps[0]).value + Frames(k, ps[1..])
  {
    assert AllFit(ps[1..]) by {
      forall i | 0 <= i < |ps[1..]| ensures |ps[1..][i]| < SizeLimit {
        assert ps[1..][i] == ps[i + 1];
      }
    }
  }

  /** A disconnected sender that cannot reconnect drains its queue and
      sends nothing. */
  lemma {:induction false} DisconnectedDrops(s: Sender, k: Kind, n: nat)
    requires !s.connected
    ensures Run(s, k, n, false).wire == s.wire
    ensures n >= |s.pending| ==> Run(s, k, n, false).pending == []
    decreases n
  {
    if n > 0 {
      DisconnectedDrops(SendStep(s, k, false), k, n - 1);
    }
  }

  // ---------------------------------------------------------------------
  // Receiver

  /** One payload handed to a handler. */
  datatype Message = Message(kind: Kind, payload: seq<Byte>)

  /** The `data_handlers` lookup by decoded name. */
  function Handler(name: string): (r: Option<Kind>)
    ensures r.Some? <==> name == "video" || name == "audio"
    ensures r.Some? ==> Name(r.value) == name
  {
    if name == "video" then Some(Video)
    else if name == "audio" then Some(Audio)
    else None
  }

  /** What a header tells: its tag failed to decode, or the handler it
      selects (if any) and the payload length. */
  datatype Header = Undecodable | Header(handler: Option<Kind>, size: nat)

  /** `header = buffer[:header_size]`: the first five bytes, decoded and
      stripped, name the handler; the next three give the payload length. */
  function ParseHeader(b: seq<Byte>): Header
    requires |b| >= HeaderSize
  {
    match DecodeRange(b, 0, TagSize)
    case None => Undecodable
    case Some(text) => Header(Handler(Strip(text)), ReadSize(b, TagSize))
  }

  /** The header reads the first eight bytes and nothing else. */
  lemma {:induction false} HeaderLocal(a: seq<Byte>, c: seq<Byte>)
    requires |a| >= HeaderSize && |c| >= HeaderSize
    requires forall i :: 0 <= i < HeaderSize ==> a[i] == c[i]
    ensures ParseHeader(a) == ParseHeader(c)
  {
    RangeLocal(a, c, 0, TagSize);
  }

  /** A buffer that starts with a frame's header announces that frame. */
  lemma {:induction false} FrameHeader(k: Kind, payload: seq<Byte>, b: seq<Byte>)
    requires |payload| < SizeLimit && |b| >= HeaderSize
    requires forall i :: 0 <= i < HeaderSize ==> b[i] == Frame(k, payload).value[i]
    ensures ParseHeader(b) == Header(Some(k), |payload|)
  {
    var f := Frame(k, payload).value;
    FrameLayout(k, payload);
    HeaderLocal(b, f);
    assert f[..TagSize] == Tag(k);
    DecodePrefix(f, TagSize);
    TagSelects(k);
  }

  /** The tag selects a handler exactly when it is that handler's name,
      byte for byte: five bytes cannot decode to five letters with
      whitespace around them. */
  lemma {:induction false} TagIsExact(h: seq<Byte>, k: Kind)
    requires |h| == TagSize
    ensures (Decode(h).Some? && Handler(Strip(Decode(h).value)) == Some(k)) <==> h == Tag(k)
  {
    if Decode(h).Some? && Handler(Strip(Decode(h).value)) == Some(k) {
      TagOnly(h, k);
    }
    TagSelects(k);
  }

  /** A buffer's header names handler `k` exactly when the buffer starts
      with that handler's tag. */
  lemma {:induction false} HeaderSelects(b: seq<Byte>, k: Kind)
    requires |b| >= HeaderSize
    ensures (ParseHeader(b).Header? && ParseHeader(b).handler == Some(k)) <==> b[..TagSize] == Tag(k)
  {
    DecodePrefix(b, TagSize);
    TagIsExact(b[..TagSize], k);
  }

  lemma {:induction false} TagSelects(k: Kind)
    ensures Decode(Tag(k)) == Some(Name(k)) && Handler(Strip(Name(k))) == Some(k)
  {
    NamePlain(k);
    PlainRoundTrip(Name(k));
  }

  /** Both names are ASCII letters only. */
  lemma {:induction false} NamePlain(k: Kind)
    ensures IsAscii(Name(k)) && forall i :: 0 <= i < |Name(k)| ==> !IsSpace(Name(k)[i])
  {
    match k
    case Video =>
    case Audio =>
  }

  lemma {:induction false} PlainRoundTrip(n: string)
    requires IsAscii(n) && forall i :: 0 <= i < |n| ==> !IsSpace(n[i])
    ensures Decode(AsciiBytes(n)) == Some(n) && Strip(n) == n
  {
    AsciiRoundTrip(n);
  }

  /** Five bytes that select handler `k` are its tag. */
  lemma {:induction false} TagOnly(h: seq<Byte>, k: Kind)
    requires |h| == TagSize && Decode(h).Some? && Handler(Strip(Decode(h).value)) == Some(k)
    ensures h == Tag(k)
  {
    var text := Decode(h).value;
    assert Strip(text) == Name(k);
    StripKeepsFull(text, |Name(k)|);
    FullLengthIsAscii(h);
    assert forall i :: 0 <= i < TagSize ==> h[i] == Tag(k)[i];
  }

  /** Stripping that keeps as many characters as there are removes none. */
  lemma {:induction false} StripKeepsFull(text: string, n: nat)
    requires |text| <= n == |Strip(text)| && n > 0
    ensures Strip(text) == text
  {
    var r := Strip(text);
    assert text[LeadingSpaces(text)..LeadingSpaces(text) + |r|] == r;
  }

  /** The inner loop stops when fewer than eight bytes are buffered or the
      frame whose header it read is not complete yet. */
  predicate Waiting(b: seq<Byte>) {
    |b| < HeaderSize
    || (ParseHeader(b).Header? && |b| < HeaderSize + ParseHeader(b).size)
  }

  /** What the receiver did with its buffer: the payloads it dispatched in
      order, the bytes left over, and whether the connection closed. */
  datatype Drained = Drained(dispatched: seq<Message>, rest: seq<Byte>, closed: bool)

  function Prepend(ms: seq<Message>, d: Drained): (r: Drained)
    ensures r.dispatched == ms + d.dispatched && r.rest == d.rest && r.closed == d.closed
  {
    d.(dispatched := ms + d.dispatched)
  }

  /** The inner `while len(buffer) >= header_size` loop. Complete frames
      leave the front in order; those with a known tag are dispatched, the
      others skipped. A tag that is not UTF-8 raises, which closes the
      connection and discards the buffer. */
  function Drain(buffer: seq<Byte>): (r: Drained)
    ensures r.closed ==> r.rest == []
    decreases |buffer|
  {
    if |buffer| < HeaderSize then Drained([], buffer, false)
    else
      match ParseHeader(buffer)
      case Undecodable => Drained([], [], true)
      case Header(handler, size) =>
        if |buffer| < HeaderSize + size then Drained([], buffer, false)
        else Emit(handler, buffer[HeaderSize..HeaderSize + size], Drain(buffer[HeaderSize + size..]))
  }

  /** What the inner loop leaves in the buffer is the unread end of it, and
      it holds less than a whole frame. */
  lemma {:induction false} DrainLeaves(buffer: seq<Byte>)
    ensures var d := Drain(buffer);
      !d.closed ==> Waiting(d.rest) && IsSuffix(d.rest, buffer)
    decreases |buffer|
  {
    if |buffer| >= HeaderSize {
      match ParseHeader(buffer)
      case Undecodable =>
      case Header(handler, size) =>
        if |buffer| >= HeaderSize + size {
          var tail := buffer[HeaderSize + size..];
          DrainLeaves(tail);
          DrainStep(buffer, handler, size);
          SuffixOfSuffix(buffer, HeaderSize + size, Drain(tail).rest);
        }
    }
  }

  /** `rest` is what is left of `b` once some bytes left its front. */
  predicate IsSuffix(rest: seq<Byte>, b: seq<Byte>) {
    |rest| <= |b| && rest == b[|b| - |rest|..]
  }

  lemma {:induction false} SuffixOfSuffix(b: seq<Byte>, k: nat, rest: seq<Byte>)
    requires k <= |b|
    ensures IsSuffix(rest, b[k..]) ==> IsSuffix(rest, b)
  {
    if IsSuffix(rest, b[k..]) {
      assert b[k..][|b| - k - |rest|..] == b[|b| - |rest|..];
    }
  }

  /** `data_handlers[data_type](message)` for a known tag; nothing for an
      unknown one. */
  function Emit(handler: Option<Kind>, payload: seq<Byte>, d: Drained): (r: Drained)
    ensures r.rest == d.rest && r.closed == d.closed
    ensures handler.Some? ==> r.dispatched == [Message(handler.value, payload)] + d.dispatched
    ensures handler.None? ==> r == d
  {
    if handler.Some? then Prepend([Message(handler.value, payload)], d) else d
  }

  /** The inner loop's body for a complete frame at the front. */
  lemma {:induction false} DrainStep(buffer: seq<Byte>, handler: Option<Kind>, size: nat)
    requires |buffer| >= HeaderSize && ParseHeader(buffer) == Header(handler, size)
    requires |buffer| >= HeaderSize + size
    ensures Drain(buffer) == Emit(handler, buffer[HeaderSize..HeaderSize + size], Drain(buffer[HeaderSize + size..]))
  {
  }

  lemma {:induction false} EmitThen(handler: Option<Kind>, payload: seq<Byte>, d: Drained, more: seq<Byte>)
    ensures Then(Emit(handler, payload, d), more) == Emit(handler, payload, Then(d, more))
  {
    if handler.Some? && !d.closed {
      var m := [Message(handler.value, payload)];
      assert (m + d.dispatched) + Drain(d.rest + more).dispatched
        == m + (d.dispatched + Drain(d.rest + more).dispatched);
    }
  }

  /** Continuing a drained buffer with more bytes. */
  function Then(d: Drained, more: seq<Byte>): Drained {
    if d.closed then d else Prepend(d.dispatched, Drain(d.rest + more))
  }

  /** Bytes arriving later do not change what was already dispatched: the
      buffer may be split anywhere. */
  lemma {:induction false} DrainAppend(a: seq<Byte>, b: seq<Byte>)
    ensures Drain(a + b) == Then(Drain(a), b)
    decreases |a|
  {
    if |a| >= HeaderSize {
      HeaderLocal(a + b, a);
      match ParseHeader(a)
      case Undecodable =>
      case Header(handler, size) =>
        if |a| >= HeaderSize + size {
          DrainAppend(a[HeaderSize + size..], b);
          FrameThen(a, b, handler, size);
        }
    } else {
      assert [] + Drain(a + b).dispatched == Drain(a + b).dispatched;
    }
  }

  /** The step of `DrainAppend` for a complete frame at the front of `a`. */
  lemma {:induction false} FrameThen(a: seq<Byte>, b: seq<Byte>, handler: Option<Kind>, size: nat)
    requires |a| >= HeaderSize + size && ParseHeader(a) == Header(handler, size)
    requires Drain(a[HeaderSize + size..] + b) == Then(Drain(a[HeaderSize + size..]), b)
    ensures Drain(a + b) == Then(Drain(a), b)
  {
    var tail := a[HeaderSize + size..];
    var payload := a[HeaderSize..HeaderSize + size];
    HeaderLocal(a + b, a);
    SliceOfAppend(a, b, HeaderSize, HeaderSize + size);
    DropOfAppend(a, b, HeaderSize + size);
    calc {
      Drain(a + b);
    == { DrainStep(a + b, handler, size); }
      Emit(handler, payload, Drain(tail + b));
    ==
      Emit(handler, payload, Then(Drain(tail), b));
    == { EmitThen(handler, payload, Drain(tail), b); }
      Then(Emit(handler, payload, Drain(tail)), b);
    == { DrainStep(a, handler, size); }
      Then(Drain(a), b);
    }
  }

  lemma {:induction false} DropOfAppend(a: seq<Byte>, b: seq<Byte>, n: nat)
    requires n <= |a|
    ensures (a + b)[n..] == a[n..] + b
  {
  }

  lemma {:induction false} SliceOfAppend(a: seq<Byte>, b: seq<Byte>, m: nat, n: nat)
    requires m <= n <= |a|
    ensures (a + b)[m..n] == a[m..n]
  {
  }

  /** The outer loop over successive `recv` results, from a buffer the
      inner loop has left waiting (at first `b""`). An empty result means
      the peer closed: the loop ends. */
  function Receive(buffer: seq<Byte>, chunks: seq<seq<Byte>>): (r: Drained)
    ensures chunks != [] && chunks[0] == [] ==> r == Drained([], buffer, true)
    decreases |chunks|
  {
    if chunks == [] then Drained([], buffer, false)
    else if chunks[0] == [] then Drained([], buffer, true)
    else
      var d := Drain(buffer + chunks[0]);
      if d.closed then d else Prepend(d.dispatched, Receive(d.rest, chunks[1..]))
  }

  function Concat(chunks: seq<seq<Byte>>): seq<Byte> {
    if chunks == [] then [] else chunks[0] + Concat(chunks[1..])
  }

  /** However the bytes are split into `recv` results, the receiver
      dispatches what one pass over all of them would. */
  lemma {:induction false} ChunkingIrrelevant(buffer: seq<Byte>, chunks: seq<seq<Byte>>)
    requires Waiting(buffer)
    requires forall i :: 0 <= i < |chunks| ==> chunks[i] != []
    ensures Receive(buffer, chunks) == Drain(buffer + Concat(chunks))
    decreases |chunks|
  {
    if chunks == [] {
      assert buffer + [] == buffer;
      WaitingDrains(buffer);
    } else {
      var more := Concat(chunks[1..]);
      var d := Drain(buffer + chunks[0]);
      ConcatCons(buffer, chunks);
      DrainAppend(buffer + chunks[0], more);
      ReceiveStep(buffer, chunks);
      if !d.closed {
        DrainLeaves(buffer + chunks[0]);
        NonEmptyTail(chunks);
        ChunkingIrrelevant(d.rest, chunks[1..]);
      }
    }
  }

  lemma {:induction false} ConcatCons(buffer: seq<Byte>, chunks: seq<seq<Byte>>)
    requires chunks != []
    ensures buffer + Concat(chunks) == (buffer + chunks[0]) + Concat(chunks[1..])
  {
  }

  lemma {:induction false} NonEmptyTail(chunks: seq<seq<Byte>>)
    requires chunks != [] && forall i :: 0 <= i < |chunks| ==> chunks[i] != []
    ensures forall i :: 0 <= i < |chunks[1..]| ==> chunks[1..][i] != []
  {
    forall i | 0 <= i < |chunks[1..]| ensures chunks[1..][i] != [] {
      assert chunks[1..][i] == chunks[i + 1];
    }
  }

  /** One `recv` result that is not empty. */
  lemma {:induction false} ReceiveStep(buffer: seq<Byte>, chunks: seq<seq<Byte>>)
    requires chunks != [] && chunks[0] != []
    ensures var d := Drain(buffer + chunks[0]);
      Receive(buffer, chunks) == if d.closed then d else Prepend(d.dispatched, Receive(d.rest, chunks[1..]))
  {
  }

  /** A waiting buffer is left as it is. */
  lemma {:induction false} WaitingDrains(b: seq<Byte>)
    requires Waiting(b)
    ensures Drain(b) == Drained([], b, false)
  {
  }

  /** A whole frame at the front is dispatched and removed. */
  lemma {:induction false} FrameDispatched(k: Kind, payload: seq<Byte>, rest: seq<Byte>)
    requires |payload| < SizeLimit
    ensures Drain(Frame(k, payload).value + rest) == Prepend([Message(k, payload)], Drain(rest))
  {
    var f := Frame(k, payload).value;
    FrameLayout(k, payload);
    var b := f + rest;
    FrameHeader(k, payload, b);
    assert b[HeaderSize..HeaderSize + |payload|] == payload;
    assert b[HeaderSize + |payload|..] == rest;
  }

  /** A frame that has only partly arrived is kept whole and nothing is
      dispatched. */
  lemma {:induction false} PartialFrameWaits(k: Kind, payload: seq<Byte>, q: seq<Byte>)
    requires |payload| < SizeLimit
    requires |q| < |Frame(k, payload).value| && q == Frame(k, payload).value[..|q|]
    ensures Drain(q) == Drained([], q, false)
  {
    if |q| >= HeaderSize {
      var f := Frame(k, payload).value;
      FrameLayout(k, payload);
      assert forall i :: 0 <= i < HeaderSize ==> q[i] == f[i];
      FrameHeader(k, payload, q);
    }
  }

  function Messages(k: Kind, ps: seq<seq<Byte>>): (r: seq<Message>)
    ensures |r| == |ps|
  {
    if ps == [] then [] else [Message(k, ps[0])] + Messages(k, ps[1..])
  }

  /** Frames back to back decode to their payloads, in order, with nothing
      left over. */
  lemma {:induction false} FramesRoundTrip(k: Kind, ps: seq<seq<Byte>>)
    requires AllFit(ps)
    ensures Drain(Frames(k, ps)) == Drained(Messages(k, ps), [], false)
    decreases |ps|
  {
    if ps != [] {
      assert AllFit(ps[1..]);
      FrameDispatched(k, ps[0], Frames(k, ps[1..]));
      FramesRoundTrip(k, ps[1..]);
    }
  }

  /** End to end: what a connected sender queued reaches the matching
      handler in order, however the link splits the bytes. */
  lemma {:induction false} EndToEnd(k: Kind, ps: seq<seq<Byte>>, chunks: seq<seq<Byte>>)
    requires AllFit(ps)
    requires forall i :: 0 <= i < |chunks| ==> chunks[i] != []
    requires Concat(chunks) == Run(Sender(true, ps, []), k, |ps|, false).wire
    ensures Receive([], chunks) == Drained(Messages(k, ps), [], false)
  {
    SenderStreams(Sender(true, ps, []), k, false);
    assert [] + Frames(k, ps) == Frames(k, ps);
    FramesRoundTrip(k, ps);
    ChunkingIrrelevant([], chunks);
    assert [] + Concat(chunks) == Concat(chunks);
  }
}
