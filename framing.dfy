/** The TCP session's framing: a message is a decimal length, '#', then
    exactly that many body bytes. The session alternates between reading a
    header and reading a body over one byte buffer; bytes received beyond a
    frame stay buffered for the next one. */
module Framing {
  import opened Basics
  import opened Drawables
  import opened Decoder
  import opened Store

  const Delimiter: char := '#'

  /** ULONG_MAX of a 64-bit unsigned long. */
  const ULongMax: nat := 0xFFFF_FFFF_FFFF_FFFF

  // ---------------------------------------------------------------------
  // std::stoul in base 10

  predicate IsDigit(c: char) { '0' <= c <= '9' }

  /** The length of the leading run of decimal digits. */
  function DigitRun(s: string): (n: nat)
    ensures n <= |s|
    ensures forall i :: 0 <= i < n ==> IsDigit(s[i])
    ensures n < |s| ==> !IsDigit(s[n])
  {
    if s == [] || !IsDigit(s[0]) then 0 else 1 + DigitRun(s[1..])
  }

  /** The header's numeric value: leading white space is skipped, one sign
      is accepted, then the longest run of decimal digits is read and
      anything after it ignored. No digit at all throws invalid_argument, a
      magnitude above ULONG_MAX throws out_of_range (both None); a minus
      sign negates modulo 2^64, as strtoul does. */
  function Stoul(s: string): (r: Option<nat>)
    ensures r.Some? ==> r.value <= ULongMax
  {
    var t := s[SpaceRun(s)..];
    var signed := |t| > 0 && (t[0] == '+' || t[0] == '-');
    var negative := |t| > 0 && t[0] == '-';
    var u := if signed then t[1..] else t;
    var n := DigitRun(u);
    if n == 0 then None
    else
      var v := DecimalValue(u[..n]);
      if v > ULongMax then None
      else if negative && v != 0 then Some(ULongMax + 1 - v)
      else Some(v)
  }

  /** The decimal rendering of a length reads back as that length. */
  lemma StoulReadsDecimal(n: nat)
    requires n <= ULongMax
    ensures Stoul(NatToDecimal(n)) == Some(n)
  {
    var s := NatToDecimal(n);
    assert !IsSpace(s[0]) && s[0] != '+' && s[0] != '-';
    assert SpaceRun(s) == 0;
    assert s[0..] == s;
    DigitsRunToEnd(s);
    assert s[..|s|] == s;
    DecimalRoundTrip(n);
  }

  lemma DigitsRunToEnd(s: string)
    requires forall i :: 0 <= i < |s| ==> IsDigit(s[i])
    ensures DigitRun(s) == |s|
  {
    if s != [] {
      DigitsRunToEnd(s[1..]);
    }
  }

  /** Text after the digits does not change the value; white space before
      them and an explicit plus sign are skipped. */
  lemma StoulIgnoresSurroundings(n: nat, suffix: string)
    requires n <= ULongMax && (suffix == [] || !IsDigit(suffix[0]))
    ensures Stoul(" +" + NatToDecimal(n) + suffix) == Some(n)
  {
    var d := NatToDecimal(n);
    var u := d + suffix;
    DigitRunConcat(d, suffix);
    assert u[..DigitRun(u)] == d;
    DecimalRoundTrip(n);
    var s := " +" + d + suffix;
    assert s == " +" + u;
    StoulPlus(s, u);
  }

  /** One blank, a plus sign, then digits: the digits' value. */
  lemma StoulPlus(s: string, u: string)
    requires s == " +" + u && DigitRun(u) > 0
    requires DecimalValue(u[..DigitRun(u)]) <= ULongMax
    ensures Stoul(s) == Some(DecimalValue(u[..DigitRun(u)]))
  {
    var t := s[1..];
    assert t == ['+'] + u;
    assert SpaceRun(t) == 0;
    assert SpaceRun(s) == 1;
    assert t[1..] == u;
  }

  lemma {:induction false} DigitRunConcat(d: string, suffix: string)
    requires forall i :: 0 <= i < |d| ==> IsDigit(d[i])
    requires suffix == [] || !IsDigit(suffix[0])
    ensures DigitRun(d + suffix) == |d|
  {
    if d == [] {
      assert d + suffix == suffix;
    } else {
      var s := d + suffix;
      assert s[0] == d[0] && IsDigit(d[0]);
      assert s[1..] == d[1..] + suffix;
      DigitRunConcat(d[1..], suffix);
    }
  }

  /** A header without any digit is rejected. */
  lemma StoulNeedsDigit(s: string)
    requires forall i :: 0 <= i < |s| ==> !IsDigit(s[i])
    ensures Stoul(s) == None
  {
  }

  /** "-1" wraps to ULONG_MAX instead of being rejected. */
  lemma StoulNegativeWraps()
    ensures Stoul("-1") == Some(ULongMax)
  {
    var s := "-1";
    assert SpaceRun(s) == 0 && s[0..] == s;
    assert s[1..] == "1" && DigitRun("1") == 1;
    assert "1"[..1] == "1";
    assert DecimalValue("1") == DecimalValue([]) * 10 + 1;
  }

  // ---------------------------------------------------------------------
  // The framing state machine

  datatype Phase = AwaitingHeader | AwaitingBody(size: nat) | Closed

  /** What the next completion handler finds in the buffer: not enough bytes
      yet, a header (the bytes before the first '#', which is consumed with
      it), or a body of exactly the announced size. */
  datatype Transition =
    | Wait
    | HeaderRead(header: string, rest: string)
    | BodyRead(body: string, rest: string)

  function FirstIndex(s: string, c: char): (i: nat)
    ensures i <= |s|
    ensures forall j :: 0 <= j < i ==> s[j] != c
    ensures i < |s| ==> s[i] == c
  {
    if s == [] || s[0] == c then 0 else 1 + FirstIndex(s[1..], c)
  }

  function NextFrame(phase: Phase, buffer: string): (r: Transition)
    ensures r.HeaderRead? <==> phase.AwaitingHeader? && Delimiter in buffer
    ensures r.HeaderRead? ==> buffer == r.header + [Delimiter] + r.rest && Delimiter !in r.header
    ensures r.BodyRead? <==> phase.AwaitingBody? && phase.size <= |buffer|
    ensures r.BodyRead? ==> buffer == r.body + r.rest && |r.body| == phase.size
  {
    match phase
    case AwaitingHeader =>
      var i := FirstIndex(buffer, Delimiter);
      if i == |buffer| then Wait
      else
        assert buffer == buffer[..i] + [Delimiter] + buffer[i + 1..];
        HeaderRead(buffer[..i], buffer[i + 1..])
    case AwaitingBody(size) =>
      if size <= |buffer| then
        assert buffer == buffer[..size] + buffer[size..];
        BodyRead(buffer[..size], buffer[size..])
      else Wait
    case Closed => Wait
  }

  /** The phase after a header: a length that does not parse closes the socket. */
  function AfterHeader(header: string): Phase {
    match Stoul(header)
    case None => Closed
    case Some(size) => AwaitingBody(size)
  }

  /** Everything the handlers do with the buffered bytes, bodies in the order
      delivered, before they wait for more; the final phase and buffer. */
  function Drain(phase: Phase, buffer: string): (Phase, string, seq<string>)
    decreases |buffer|, if phase.AwaitingBody? then 1 else 0
  {
    match NextFrame(phase, buffer)
    case Wait => (phase, buffer, [])
    case HeaderRead(header, rest) => Drain(AfterHeader(header), rest)
    case BodyRead(body, rest) =>
      var (p, b, bodies) := Drain(AwaitingHeader, rest);
      (p, b, [body] + bodies)
  }

  /** How a client frames a message: its length in decimal, '#', the body. */
  function Frame(body: string): (f: string)
    ensures |f| > |body|
  {
    NatToDecimal(|body|) + [Delimiter] + body
  }

  function Encode(bodies: seq<string>): string {
    if bodies == [] then [] else Frame(bodies[0]) + Encode(bodies[1..])
  }

  /** Frames written back to back, followed by any bytes without a '#',
      yield each body once, in order; the trailing bytes stay buffered and
      the session waits for the rest of the next header. */
  lemma {:induction false} FramesRoundTrip(bodies: seq<string>, rest: string)
    requires forall i :: 0 <= i < |bodies| ==> |bodies[i]| <= ULongMax
    requires Delimiter !in rest
    ensures Drain(AwaitingHeader, Encode(bodies) + rest) == (AwaitingHeader, rest, bodies)
    decreases |bodies|
  {
    if bodies == [] {
      assert Encode(bodies) + rest == rest;
      assert FirstIndex(rest, Delimiter) == |rest|;
    } else {
      var after := Encode(bodies[1..]) + rest;
      assert Encode(bodies) + rest == Frame(bodies[0]) + after;
      FirstFrame(bodies[0], after);
      FramesRoundTrip(bodies[1..], rest);
      assert [bodies[0]] + bodies[1..] == bodies;
    }
  }

  /** One frame at the head of the buffer delivers its body and leaves the
      bytes after it. */
  lemma FirstFrame(body: string, after: string)
    requires |body| <= ULongMax
    ensures Drain(AwaitingHeader, Frame(body) + after) ==
            var (p, b, bodies) := Drain(AwaitingHeader, after); (p, b, [body] + bodies)
  {
    var d := NatToDecimal(|body|);
    assert Frame(body) + after == d + [Delimiter] + (body + after);
    assert Delimiter !in d by {
      forall i | 0 <= i < |d| ensures d[i] != Delimiter {
        assert IsDigit(d[i]);
      }
    }
    HeaderSplit(d, body + after);
    StoulReadsDecimal(|body|);
    BodyIsOpaque(body, after);
  }

  /** The first '#' ends the header. */
  lemma HeaderSplit(header: string, tail: string)
    requires Delimiter !in header
    ensures NextFrame(AwaitingHeader, header + [Delimiter] + tail) == HeaderRead(header, tail)
  {
    var s := header + [Delimiter] + tail;
    var i := FirstIndex(s, Delimiter);
    assert s[|header|] == Delimiter;
    assert forall j :: 0 <= j < |header| ==> s[j] == header[j];
    assert i == |header|;
    assert s[..i] == header;
    assert s[i + 1..] == tail;
  }

  /** A body of the announced size is taken whole even when it contains
      '#', and whatever follows it is left for the next header. */
  lemma BodyIsOpaque(body: string, tail: string)
    ensures NextFrame(AwaitingBody(|body|), body + tail) == BodyRead(body, tail)
  {
  }

  /** Once closed, the session consumes nothing. */
  lemma ClosedIsFinal(buffer: string)
    ensures Drain(Closed, buffer) == (Closed, buffer, [])
  {
  }

  /** The server thread: its io_context runs the sessions' handlers until
      an exception escapes one of them. The exception leaves run_for, the
      thread's catch ends the thread, and from then on no session is served
      and no connection accepted. */
  class Server {
    var running: bool

    constructor()
      ensures running
    {
      running := true;
    }
  }

  /** One TcpSession: its phase, its stream buffer, the shared table it
      delivers payloads to and the server whose io_context runs it. */
  class Session {
    var phase: Phase
    var buffer: string
    const store: Store
    const server: Server

    predicate Valid()
      reads this, store
    {
      store.Valid()
    }

    /** start(): the session begins by reading a header. */
    constructor(store: Store, server: Server)
      requires store.Valid()
      ensures Valid() && this.store == store && this.server == server
      ensures phase == AwaitingHeader && buffer == []
    {
      this.store := store;
      this.server := server;
      phase := AwaitingHeader;
      buffer := [];
    }

    /** Bytes arriving on the socket join the stream buffer; a closed
        session, or one whose server has stopped, reads nothing more. */
    method Receive(bytes: string)
      modifies this
      ensures phase == old(phase)
      ensures buffer == if old(phase).Closed? || !server.running then old(buffer) else old(buffer) + bytes
    {
      if !phase.Closed? && server.running {
        buffer := buffer + bytes;
      }
    }

    /** A read error or the end of the stream: the handler schedules no
        further read. */
    method Disconnect()
      modifies this
      ensures phase == Closed && buffer == old(buffer)
    {
      phase := Closed;
    }

    /** One completion handler, when the server still runs and the buffer
        allows it to run: a header is parsed (closing the socket when it does
        not parse), or a body is taken and passed to process_payload, after
        which the session reads the next header. An exception escaping
        process_payload ends the server: this session and every other one
        make no further step. parse stands for the JSON text parser and
        clock for the steady clock. */
    method Step(parse: string -> Source, clock: Clock, ctx: Context, stopAt: Option<nat>)
      returns (progress: bool, outcome: Option<PayloadOutcome>)
      requires Valid()
      modifies this, store, server
      ensures Valid()
      ensures !old(server.running) ==>
                !progress && outcome == None && !server.running && unchanged(this, store)
      ensures old(server.running) ==> (progress <==> !NextFrame(old(phase), old(buffer)).Wait?)
      ensures old(server.running) && !NextFrame(old(phase), old(buffer)).BodyRead? ==>
                && outcome == None
                && unchanged(store)
                && server.running
      ensures old(server.running) && NextFrame(old(phase), old(buffer)).Wait? ==>
                phase == old(phase) && buffer == old(buffer)
      ensures old(server.running) && NextFrame(old(phase), old(buffer)).HeaderRead? ==>
                && phase == AfterHeader(NextFrame(old(phase), old(buffer)).header)
                && buffer == NextFrame(old(phase), old(buffer)).rest
      ensures old(server.running) && NextFrame(old(phase), old(buffer)).BodyRead? ==>
                var body := NextFrame(old(phase), old(buffer)).body;
                var (batch, counter) := DecodeSource(parse(body), clock, old(store.idCounter));
                && outcome.Some?
                && store.idCounter == counter
                && (store.allDraws, outcome.value) == PayloadSpec(old(store.allDraws), batch, ctx, stopAt)
                && buffer == NextFrame(old(phase), old(buffer)).rest
                && phase == (if outcome.value == ConversionThrew then Closed else AwaitingHeader)
                && server.running == (outcome.value != ConversionThrew)
    {
      outcome := None;
      progress := false;
      if !server.running {
        return;
      }
      match NextFrame(phase, buffer)
      case Wait =>
      case HeaderRead(header, rest) =>
        progress := true;
        buffer := rest;
        phase := AfterHeader(header);
      case BodyRead(body, rest) =>
        progress := true;
        buffer := rest;
        var o := store.ProcessPayload(parse(body), clock, ctx, stopAt);
        outcome := Some(o);
        if o == ConversionThrew {
          phase := Closed;
          server.running := false;
        } else {
          phase := AwaitingHeader;
        }
    }
  }
}
