/** SLIP framing (the PROTOCOL section of RFC 1055) over the UART: what `slip_send` writes, `slip_recv`
    reads back packet by packet. */
module Slip {

  type Octet = n: nat | n < 256

  const END: Octet := 0xC0
  const ESC: Octet := 0xDB
  const ESC_END: Octet := 0xDC
  const ESC_ESC: Octet := 0xDD

  // ----- Sending -----

  function Escape(b: Octet): seq<Octet> {
    if b == END then [ESC, ESC_END] else if b == ESC then [ESC, ESC_ESC] else [b]
  }

  function Body(data: seq<Octet>): seq<Octet> {
    if data == [] then [] else Escape(data[0]) + Body(data[1..])
  }

  function Frame(data: seq<Octet>): seq<Octet> { [END] + Body(data) + [END] }

  function Stream(packets: seq<seq<Octet>>): seq<Octet> {
    if packets == [] then [] else Frame(packets[0]) + Stream(packets[1..])
  }

  // ----- Receiving -----

  /** The local variables of `slip_recv`; `buf` is what it has stored so far. */
  datatype Receiver = Receiver(buf: seq<Octet>, inFrame: bool, escaped: bool)

  const IDLE := Receiver([], false, false)

  function Store(buf: seq<Octet>, c: Octet, maxlen: nat): seq<Octet> {
    if |buf| < maxlen then buf + [c] else buf
  }

  /** True when `c` completes a packet. */
  predicate Completes(r: Receiver, c: Octet) {
    r.inFrame && !r.escaped && c == END && r.buf != []
  }

  /** One byte that completes no packet; a bad escape abandons the frame but still stores its byte. */
  function Accept(r: Receiver, c: Octet, maxlen: nat): Receiver {
    if !r.inFrame then r.(inFrame := c == END)
    else if r.escaped then
      if c == ESC_END then Receiver(Store(r.buf, END, maxlen), true, false)
      else if c == ESC_ESC then Receiver(Store(r.buf, ESC, maxlen), true, false)
      else Receiver(Store([], c, maxlen), false, false)
    else if c == ESC then r.(escaped := true)
    else if c == END then r.(inFrame := false)
    else r.(buf := Store(r.buf, c, maxlen))
  }

  datatype Reception = Packet(data: seq<Octet>, rest: seq<Octet>) | Waiting

  /** One call on a given input: the packet and what it leaves unread, or an endless wait for more. */
  function Recv(input: seq<Octet>, r: Receiver, maxlen: nat): (p: Reception)
    ensures p.Packet? ==> |p.rest| < |input|
    decreases |input|
  {
    if input == [] then Waiting
    else if Completes(r, input[0]) then Packet(r.buf, input[1..])
    else Recv(input[1..], Accept(r, input[0], maxlen), maxlen)
  }

  /** Repeated calls, until one would wait. */
  function RecvAll(input: seq<Octet>, maxlen: nat): seq<seq<Octet>>
    decreases |input|
  {
    var p := Recv(input, IDLE, maxlen);
    if p.Waiting? then [] else [p.data] + RecvAll(p.rest, maxlen)
  }

  function Cut(data: seq<Octet>, maxlen: nat): seq<Octet> {
    if |data| <= maxlen then data else data[..maxlen]
  }

  /** The packets worth delivering: the non-empty ones, each cut to the buffer. */
  function Delivered(packets: seq<seq<Octet>>, maxlen: nat): seq<seq<Octet>> {
    if packets == [] then []
    else (if packets[0] == [] then [] else [Cut(packets[0], maxlen)]) + Delivered(packets[1..], maxlen)
  }

  // ----- Round trip -----

  /** Inside a frame, an escaped byte comes through as itself. */
  lemma EscapeReceived(b: Octet, tail: seq<Octet>, buf: seq<Octet>, maxlen: nat)
    ensures Recv(Escape(b) + tail, Receiver(buf, true, false), maxlen) ==
            Recv(tail, Receiver(Store(buf, b, maxlen), true, false), maxlen)
  {}

  lemma {:induction false} BodyReceived(data: seq<Octet>, tail: seq<Octet>, got: seq<Octet>, maxlen: nat)
    ensures Recv(Body(data) + tail, Receiver(Cut(got, maxlen), true, false), maxlen) ==
            Recv(tail, Receiver(Cut(got + data, maxlen), true, false), maxlen)
  {
    if data == [] {
      assert Body(data) + tail == tail && got + data == got;
    } else {
      assert Body(data) + tail == Escape(data[0]) + (Body(data[1..]) + tail);
      EscapeReceived(data[0], Body(data[1..]) + tail, Cut(got, maxlen), maxlen);
      assert Store(Cut(got, maxlen), data[0], maxlen) == Cut(got + [data[0]], maxlen);
      BodyReceived(data[1..], tail, got + [data[0]], maxlen);
      assert got + [data[0]] + data[1..] == got + data;
    }
  }

  /** A call on a frame returns its packet and stops exactly at the closing END; an empty frame is
      passed over. */
  lemma FrameReceived(data: seq<Octet>, tail: seq<Octet>, maxlen: nat)
    requires maxlen > 0
    ensures Recv(Frame(data) + tail, IDLE, maxlen) ==
            if data == [] then Recv(tail, IDLE, maxlen) else Packet(Cut(data, maxlen), tail)
  {
    var all := Frame(data) + tail;
    assert all[0] == END && all[1..] == Body(data) + ([END] + tail);
    assert Recv(all, IDLE, maxlen) == Recv(all[1..], Receiver([], true, false), maxlen);
    assert Cut([], maxlen) == [] && [] + data == data;
    BodyReceived(data, [END] + tail, [], maxlen);
    assert ([END] + tail)[1..] == tail;
    if data == [] {
      assert Recv([END] + tail, Receiver([], true, false), maxlen) == Recv(tail, Receiver([], false, false), maxlen);
    }
  }

  /** Whatever packets are sent, receiving until the stream runs dry gives the non-empty ones in order. */
  lemma {:induction false} StreamRoundTrip(packets: seq<seq<Octet>>, maxlen: nat)
    requires maxlen > 0
    ensures RecvAll(Stream(packets), maxlen) == Delivered(packets, maxlen)
  {
    if packets != [] {
      var tail := Stream(packets[1..]);
      FrameReceived(packets[0], tail, maxlen);
      StreamRoundTrip(packets[1..], maxlen);
      if packets[0] == [] {
        assert RecvAll(Stream(packets), maxlen) == RecvAll(tail, maxlen);
      }
    }
  }

  /** With no room to store, every frame looks empty and nothing is ever delivered. */
  lemma {:induction false} NoRoomNoPacket(input: seq<Octet>, r: Receiver)
    requires r.buf == []
    ensures Recv(input, r, 0).Waiting?
    decreases |input|
  {
    if input != [] { NoRoomNoPacket(input[1..], Accept(r, input[0], 0)); }
  }

  /** Transparency: END marks frame boundaries and nothing else. */
  lemma {:induction false} BodyHasNoEnd(data: seq<Octet>)
    ensures END !in Body(data)
  {
    if data != [] { BodyHasNoEnd(data[1..]); }
  }

  /** The octets that go out: a frame is its escaped packet between two ENDs, octet by octet. */
  lemma {:induction false} OctetsSent(a: seq<Octet>, b: Octet, c: seq<Octet>)
    ensures Frame(a) == [0xC0] + Body(a) + [0xC0] && Body([]) == [] && Body(a + c) == Body(a) + Body(c)
    ensures Body([b]) == if b == 0xC0 then [0xDB, 0xDC] else if b == 0xDB then [0xDB, 0xDD] else [b]
  {
    assert [b][1..] == [];
    if a == [] {
      assert a + c == c;
    } else {
      assert (a + c)[1..] == a[1..] + c;
      OctetsSent(a[1..], b, c);
    }
  }

  lemma BodySnoc(data: seq<Octet>, i: nat)
    requires i < |data|
    ensures Body(data[..i + 1]) == Body(data[..i]) + Escape(data[i])
  {
    assert data[..i + 1] == data[..i] + [data[i]];
    OctetsSent(data[..i], data[i], [data[i]]);
  }

  lemma BodyStarts()
    ensures Body([]) == []
  {}

  // ----- Off the beaten track -----

  /** Between packets, anything up to the next END is passed over. */
  lemma {:induction false} NoisePassedOver(noise: seq<Octet>, tail: seq<Octet>, buf: seq<Octet>, maxlen: nat)
    requires END !in noise
    ensures Recv(noise + tail, Receiver(buf, false, false), maxlen) == Recv(tail, Receiver(buf, false, false), maxlen)
  {
    if noise == [] {
      assert noise + tail == tail;
    } else {
      assert (noise + tail)[1..] == noise[1..] + tail;
      NoisePassedOver(noise[1..], tail, buf, maxlen);
    }
  }

  /** Once an END that closes a frame has been taken for one that opens it, the receiver stays out of step: it
      reads between the frames, and no packet arrives any more. */
  lemma {:induction false} OutOfStep(packets: seq<seq<Octet>>, maxlen: nat)
    ensures Recv(Stream(packets), Receiver([], true, false), maxlen).Waiting?
  {
    if packets != [] {
      var body, tail := Body(packets[0]), Stream(packets[1..]);
      var all := Stream(packets);
      assert all[0] == END && all[1..] == body + ([END] + tail);
      BodyHasNoEnd(packets[0]);
      NoisePassedOver(body, [END] + tail, [], maxlen);
      assert ([END] + tail)[1..] == tail;
      OutOfStep(packets[1..], maxlen);
    }
  }

  /** So a receiver that comes in anywhere inside a frame gets none of the packets that follow, however many. */
  lemma JoinedLate(rest: seq<Octet>, packets: seq<seq<Octet>>, maxlen: nat)
    requires END !in rest
    ensures RecvAll(rest + [END] + Stream(packets), maxlen) == []
  {
    var tail := [END] + Stream(packets);
    assert rest + [END] + Stream(packets) == rest + tail && tail[1..] == Stream(packets);
    NoisePassedOver(rest, tail, [], maxlen);
    OutOfStep(packets, maxlen);
  }

  lemma BadEscapeSkipsFrame(before: seq<Octet>, c: Octet, rest: seq<Octet>, tail: seq<Octet>, maxlen: nat)
    requires c != ESC_END && c != ESC_ESC && END !in rest && maxlen > 0
    ensures Recv([END] + Body(before) + [ESC, c] + rest + [END] + tail, IDLE, maxlen) ==
            Recv(tail, Receiver([c], true, false), maxlen)
  {
    var later := [END] + tail;
    var escape := [ESC, c] + (rest + later);
    var all := [END] + Body(before) + [ESC, c] + rest + [END] + tail;
    assert all == [END] + (Body(before) + escape) && all[1..] == Body(before) + escape;
    assert Recv(all, IDLE, maxlen) == Recv(Body(before) + escape, Receiver([], true, false), maxlen);
    assert later[1..] == tail;
    assert Recv(later, Receiver([c], false, false), maxlen) == Recv(tail, Receiver([c], true, false), maxlen);
    hide Recv;
    assert Cut([], maxlen) == [] && [] + before == before;
    BodyReceived(before, escape, [], maxlen);
    EscapeFails(c, rest + later, Cut(before, maxlen), maxlen);
    NoisePassedOver(rest, later, [c], maxlen);
  }

  /** A frame with a bad escape is not discarded: the offending octet arrives as a packet of its own at the next
      END, and nothing after it arrives at all. */
  lemma BadEscapeLosesAll(before: seq<Octet>, c: Octet, rest: seq<Octet>, packets: seq<seq<Octet>>, maxlen: nat)
    requires c != ESC_END && c != ESC_ESC && END !in rest && maxlen > 0
    ensures RecvAll([END] + Body(before) + [ESC, c] + rest + [END] + Stream(packets), maxlen) ==
      if packets == [] then [] else [[c]]
  {
    BadEscapeSkipsFrame(before, c, rest, Stream(packets), maxlen);
    if packets != [] {
      var tail := Body(packets[0]) + [END] + Stream(packets[1..]);
      assert Stream(packets)[0] == END && Stream(packets)[1..] == tail;
      BodyHasNoEnd(packets[0]);
      JoinedLate(Body(packets[0]), packets[1..], maxlen);
    }
  }

  lemma EscapeFails(c: Octet, tail: seq<Octet>, buf: seq<Octet>, maxlen: nat)
    requires c != ESC_END && c != ESC_ESC && maxlen > 0
    ensures Recv([ESC, c] + tail, Receiver(buf, true, false), maxlen) == Recv(tail, Receiver([c], false, false), maxlen)
  {
    var all := [ESC, c] + tail;
    assert all[0] == ESC && all[1..] == [c] + tail && ([c] + tail)[1..] == tail;
    assert Recv(all, Receiver(buf, true, false), maxlen) == Recv([c] + tail, Receiver(buf, true, true), maxlen);
    assert Store([], c, maxlen) == [c] && Accept(Receiver(buf, true, true), c, maxlen) == Receiver([c], false, false);
  }

  // ----- The UART and the two loops -----

  class Uart {
    var input: seq<Octet>      // received, not yet read
    var output: seq<Octet>     // everything written

    constructor (received: seq<Octet>)
      ensures input == received && output == []
    {
      input, output := received, [];
    }

    method PutByte(c: Octet)
      modifies `output
      ensures output == old(output) + [c]
    {
      output := output + [c];
    }

    method PutEscaped(b: Octet)
      modifies `output
      ensures output == old(output) + Escape(b)
    {
      if b == END {
        PutByte(ESC);
        PutByte(ESC_END);
      } else if b == ESC {
        PutByte(ESC);
        PutByte(ESC_ESC);
      } else {
        PutByte(b);
      }
    }

    method Send(data: seq<Octet>)
      modifies `output
      ensures output == old(output) + Frame(data)
    {
      hide Escape, Body;
      PutByte(END);
      var i := 0;
      ghost var start := output;
      BodyStarts();
      assert data[..0] == [];
      while i < |data|
        invariant 0 <= i <= |data| && output == start + Body(data[..i])
      {
        BodySnoc(data, i);
        PutEscaped(data[i]);
        i := i + 1;
      }
      assert data[..i] == data;
      PutByte(END);
    }

    /** Returns the length stored in `buf`, or 0 when the input ends before a packet does. */
    method Receive(buf: array<Octet>, maxlen: nat) returns (n: nat)
      requires maxlen <= buf.Length
      modifies `input, buf
      ensures match Recv(old(input), IDLE, maxlen)
        case Packet(data, rest) => 0 < n <= maxlen && data == buf[..n] && input == rest
        case Waiting => n == 0 && input == []
    {
      var pos, inFrame, escaped := 0, false, false;
      while input != []
        invariant pos <= maxlen
        invariant Recv(input, Receiver(buf[..pos], inFrame, escaped), maxlen) == Recv(old(input), IDLE, maxlen)
        decreases |input|
      {
        ghost var r := Receiver(buf[..pos], inFrame, escaped);
        var c := input[0];
        input := input[1..];
        if !inFrame {
          if c == END { inFrame := true; }
          continue;
        }
        if escaped {
          if c == ESC_END {
            c := END;
          } else if c == ESC_ESC {
            c := ESC;
          } else {
            inFrame, pos := false, 0;
          }
          escaped := false;
          pos := Put(buf, pos, c, maxlen);
          continue;
        }
        if c == ESC {
          escaped := true;
          continue;
        }
        if c == END {
          if pos > 0 { return pos; }
          inFrame := false;
          continue;
        }
        pos := Put(buf, pos, c, maxlen);
      }
      return 0;
    }

    /** Stores a byte while there is room. */
    static method Put(buf: array<Octet>, pos: nat, c: Octet, maxlen: nat) returns (next: nat)
      requires pos <= maxlen <= buf.Length
      modifies buf
      ensures pos <= next <= maxlen && buf[..next] == Store(old(buf[..pos]), c, maxlen)
    {
      next := pos;
      if pos < maxlen {
        buf[pos] := c;
        next := pos + 1;
      }
    }
  }
}
