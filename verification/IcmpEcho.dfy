/** The IP header that `ping` builds, the echo reply that `handle_ip` builds, and the checksums in both. */
module IcmpEcho {
  import Heap
  import opened KMemory
  import opened Slip
  import opened InetChecksum

  const IP_HEADER := 20
  const PING_SIZE := 84
  const REPLY_BUFFER := 1536
  const ICMP_PROTOCOL := 1
  const ECHO_REQUEST := 8
  const ECHO_REPLY := 0
  const OUR_IP: seq<Octet> := [192, 168, 5, 1]

  // ----- The request header -----

  function FixedByte(k: nat): Octet {
    if k == 0 then 0x45
    else if k == 2 then PING_SIZE / 256 % 256
    else if k == 3 then PING_SIZE % 256
    else if k == 8 then 64
    else if k == 9 then ICMP_PROTOCOL
    else if 12 <= k < 16 then OUR_IP[k - 12]
    else 0
  }

  /** The address goes out high byte first; the checksum field is still clear. */
  function HeaderByte(destination: nat, k: nat): Octet {
    if k == 16 then destination / 0x100_0000 % 256
    else if k == 17 then destination / 0x1_0000 % 256
    else if k == 18 then destination / 0x100 % 256
    else if k == 19 then destination % 256
    else FixedByte(k)
  }

  function HeaderBytes(destination: nat): (r: seq<Octet>)
    ensures |r| == IP_HEADER && r[10] == 0 && r[11] == 0
  {
    seq(IP_HEADER, k requires 0 <= k < IP_HEADER => HeaderByte(destination, k))
  }

  /** With its checksum, computed in network order. */
  function PingHeader(destination: nat): seq<Octet> {
    var b := HeaderBytes(destination);
    NetworkFieldVerifies(b, 10);
    var c := Complement(Fold2(NetworkSum(b)));
    b[10 := c / 256][11 := c % 256]
  }

  /** Filled byte by byte in a zeroed buffer, then summed high byte first. */
  method BuildPingHeader(destination: nat) returns (pkt: array<Octet>)
    ensures fresh(pkt) && pkt.Length == PING_SIZE && pkt[..IP_HEADER] == PingHeader(destination)
    ensures Verifies(pkt[..IP_HEADER])
  {
    hide Verifies, NetworkSum, HeaderBytes;
    pkt := new Octet[PING_SIZE](_ => 0);
    FillHeader(pkt, destination);
    var b: seq<Octet> := pkt[..IP_HEADER];
    var sum := SumNetwork(b);
    sum := FoldDown(sum);
    NetworkFieldVerifies(HeaderBytes(destination), 10);
    PingHeaderVerifies(destination);
    pkt[10] := (MASK - sum) / 256;
    pkt[11] := (MASK - sum) % 256;
    assert pkt[..IP_HEADER] == b[10 := pkt[10]][11 := pkt[11]];
  }

  method FillHeader(pkt: array<Octet>, destination: nat)
    requires pkt.Length == PING_SIZE && forall k :: 0 <= k < PING_SIZE ==> pkt[k] == 0
    modifies pkt
    ensures pkt[..IP_HEADER] == HeaderBytes(destination)
  {
    FillFixed(pkt);
    ghost var s := pkt[..];
    pkt[16] := destination / 0x100_0000 % 256;
    pkt[17] := destination / 0x1_0000 % 256;
    pkt[18] := destination / 0x100 % 256;
    pkt[19] := destination % 256;
    forall k | 0 <= k < IP_HEADER ensures pkt[k] == HeaderByte(destination, k) {
      assert s[k] == FixedByte(k);
    }
  }

  method FillFixed(pkt: array<Octet>)
    requires pkt.Length == PING_SIZE && forall k :: 0 <= k < PING_SIZE ==> pkt[k] == 0
    modifies pkt
    ensures forall k :: 0 <= k < PING_SIZE ==> pkt[k] == FixedByte(k)
  {
    pkt[0] := 0x45;
    pkt[2] := PING_SIZE / 256 % 256;
    pkt[3] := PING_SIZE % 256;
    pkt[8] := 64;
    pkt[9] := ICMP_PROTOCOL;
    pkt[12], pkt[13], pkt[14], pkt[15] := OUR_IP[0], OUR_IP[1], OUR_IP[2], OUR_IP[3];
  }

  method SumNetwork(b: seq<Octet>) returns (sum: nat)
    requires |b| <= 0x1_0000 && |b| % 2 == 0
    ensures sum == NetworkSum(b)
  {
    hide NetworkSum, Word;
    NothingInNetworkOrder();
    assert b[..0] == [];
    sum := 0;
    var i := 0;
    while i < |b| / 2
      invariant 0 <= i <= |b| / 2 && sum == NetworkSum(b[..2 * i])
    {
      SumSnoc(b, i);
      SumBound(b[..2 * i + 2]);
      sum := (sum + Word(b[2 * i + 1], b[2 * i])) % 0x1_0000_0000;
      i := i + 1;
    }
    assert b[..2 * i] == b;
  }

  lemma NothingInNetworkOrder()
    ensures NetworkSum([]) == 0
  {}

  /** A header summed big-endian passes the receiver's little-endian check, for every destination: version 4
      and five words, 84 bytes in all, 64 hops, ICMP, from 192.168.5.1 to the destination. */
  lemma PingHeaderVerifies(destination: nat)
    ensures var h := PingHeader(destination);
      |h| == 20 && Verifies(h) && h[0] == 0x45 && h[1] == 0 && 256 * h[2] + h[3] == 84 &&
      h[4..8] == [0, 0, 0, 0] && h[8] == 64 && h[9] == 1 && h[12..16] == [192, 168, 5, 1]
    ensures destination < 0x1_0000_0000 ==> var h: seq<int> := PingHeader(destination);
      h[19] + 256 * (h[18] + 256 * (h[17] + 256 * h[16])) == destination
  {
    NetworkFieldVerifies(HeaderBytes(destination), 10);
    if destination < 0x1_0000_0000 { AddressBytes(destination); }
  }

  lemma AddressBytes(a: nat)
    requires a < 0x1_0000_0000
    ensures a % 256 + 256 * (a / 0x100 % 256 + 256 * (a / 0x1_0000 % 256 + 256 * (a / 0x100_0000 % 256))) == a
  {
    assert a / 0x1_0000 == a / 0x100 / 256 && a / 0x100_0000 == a / 0x1_0000 / 256;
  }

  // ----- The reply -----

  function HeaderLength(pkt: seq<Octet>): nat
    requires pkt != []
  {
    pkt[0] % 16 * 4
  }

  /** The packets `handle_ip` answers. */
  predicate Answers(pkt: seq<Octet>) {
    |pkt| >= IP_HEADER &&
    var ihl := HeaderLength(pkt);
    IP_HEADER <= ihl <= |pkt| && pkt[16..20] == OUR_IP && Verifies(pkt[..ihl]) &&
    pkt[9] == ICMP_PROTOCOL && |pkt| - ihl >= 8 && pkt[ihl] == ECHO_REQUEST
  }

  /** The addresses exchanged, one hop used up, both checksum fields cleared, the type changed. */
  function TurnedByte(pkt: seq<Octet>, ihl: nat, k: nat): Octet
    requires k < |pkt| && IP_HEADER <= ihl
  {
    if k == 8 then (if pkt[8] > 0 then pkt[8] - 1 else 0)
    else if k == 10 || k == 11 then 0
    else if 12 <= k < 16 then OUR_IP[k - 12]
    else if 16 <= k < 20 then pkt[k - 4]
    else if k == ihl then ECHO_REPLY
    else if k == ihl + 2 || k == ihl + 3 then 0
    else pkt[k]
  }

  function Turned(pkt: seq<Octet>): (r: seq<Octet>)
    requires Answers(pkt)
    ensures |r| == |pkt|
  {
    seq(|pkt|, k requires 0 <= k < |pkt| => TurnedByte(pkt, HeaderLength(pkt), k))
  }

  /** The checksum stored low byte first. */
  function WithChecksum(b: seq<Octet>, at: nat): (r: seq<Octet>)
    requires at % 2 == 0 && at + 1 < |b|
  {
    var c := Checksum(b);
    b[at := c % 256][at + 1 := c / 256]
  }

  function Reply(pkt: seq<Octet>): seq<Octet>
    requires Answers(pkt)
  {
    var ihl, t := HeaderLength(pkt), Turned(pkt);
    WithChecksum(t[..ihl], 10) + WithChecksum(t[ihl..], 2)
  }

  /** The reply is the turned packet but for the two checksum fields. */
  lemma ReplyBytes(pkt: seq<Octet>)
    requires Answers(pkt)
    ensures var ihl, r := HeaderLength(pkt), Reply(pkt);
      |r| == |pkt| &&
      r[..ihl] == WithChecksum(Turned(pkt)[..ihl], 10) && r[ihl..] == WithChecksum(Turned(pkt)[ihl..], 2) &&
      forall k :: 0 <= k < |pkt| && k != 10 && k != 11 && k != ihl + 2 && k != ihl + 3 ==>
        r[k] == TurnedByte(pkt, ihl, k)
  {
    hide Checksum, Verifies, TurnedByte;
    var ihl, t, r := HeaderLength(pkt), Turned(pkt), Reply(pkt);
    var h, m := WithChecksum(t[..ihl], 10), WithChecksum(t[ihl..], 2);
    assert r[..ihl] == h && r[ihl..] == m;
    forall k | 0 <= k < |pkt| && k != 10 && k != 11 && k != ihl + 2 && k != ihl + 3 ensures r[k] == t[k] {
      assert r[k] == if k < ihl then h[k] else m[k - ihl];
    }
  }

  /** Which packets are answered, byte by byte: only ICMP echo requests to 192.168.5.1 of at least eight bytes,
      behind an undamaged header. */
  lemma AnswersExactly(pkt: seq<Octet>)
    ensures Answers(pkt) <==>
      |pkt| >= 20 && var ihl := 4 * (pkt[0] % 16);
      20 <= ihl && ihl + 8 <= |pkt| && pkt[9] == 1 && pkt[ihl] == 8 &&
      pkt[16] == 192 && pkt[17] == 168 && pkt[18] == 5 && pkt[19] == 1 &&
      NetworkSum(pkt[..ihl]) > 0 && NetworkSum(pkt[..ihl]) % 65535 == 0
  {
    hide Verifies, NetworkSum;
    if |pkt| >= 20 {
      if 4 * (pkt[0] % 16) <= |pkt| { OrderIndependent(pkt[..4 * (pkt[0] % 16)]); }
      assert forall k :: 16 <= k < 20 ==> pkt[k] == pkt[16..20][k - 16];
      assert pkt[16..20] == [pkt[16], pkt[17], pkt[18], pkt[19]];
    }
  }

  /** Both checksums of a reply verify, whatever the length of the message, and apart from them the reply
      is the request with the addresses exchanged, one hop less and the reply type. */
  lemma ReplyVerifies(pkt: seq<Octet>)
    requires Answers(pkt)
    ensures var ihl, r := HeaderLength(pkt), Reply(pkt);
      |r| == |pkt| && Verifies(r[..ihl]) && Verifies(r[ihl..]) &&
      r[12..16] == pkt[16..20] == [192, 168, 5, 1] && r[16..20] == pkt[12..16] &&
      r[8] == (if pkt[8] > 0 then pkt[8] - 1 else 0) && r[ihl] == 0 && pkt[ihl] == 8
    ensures var ihl, r := HeaderLength(pkt), Reply(pkt);
      ihl == 4 * (pkt[0] % 16) &&
      forall k :: 0 <= k < |pkt| && k !in {8, 10, 11, ihl, ihl + 2, ihl + 3} && !(12 <= k < 20) ==> r[k] == pkt[k]
  {
    hide Checksum, Verifies, Reply;
    var ihl, t, r := HeaderLength(pkt), Turned(pkt), Reply(pkt);
    ReplyBytes(pkt);
    NativeFieldVerifies(t[..ihl], 10);
    NativeFieldVerifies(t[ihl..], 2);
    forall k | 12 <= k < 16 ensures r[k] == pkt[k + 4] {
      assert pkt[k + 4] == pkt[16..20][k - 12];
    }
  }

  /** `handle_ip`: builds the reply in a heap buffer, sends it and gives the buffer back. */
  method HandleIp(pkt: seq<Octet>, uart: Uart, heap: Heap.KernelHeap) returns (sent: bool)
    requires |pkt| <= REPLY_BUFFER && heap.Valid()
    modifies uart`output, heap
    ensures heap.Valid() && heap.blocks == old(heap.blocks)
    ensures sent == (Answers(pkt) && Heap.Alloc(heap.blocks, 1536).ptr != 0)
    ensures uart.output == old(uart.output) + if sent then Frame(Reply(pkt)) else []
  {
    hide Frame, Checksum, Turned, Heap.Alloc, Heap.Free, Heap.Canonical, Heap.IsLive, Heap.Linked;
    if |pkt| < IP_HEADER { return false; }
    var ihl := pkt[0] % 16 * 4;
    if ihl < IP_HEADER || ihl > |pkt| { return false; }
    if pkt[16..20] != OUR_IP { return false; }
    var check := ComputeChecksum(pkt[..ihl]);
    if check != 0 { return false; }
    if pkt[9] != ICMP_PROTOCOL { return false; }
    if |pkt| - ihl < 8 { return false; }
    if pkt[ihl] != ECHO_REQUEST { return false; }
    ghost var before := heap.blocks;
    Heap.AllocEffect(before, REPLY_BUFFER, heap.start, heap.limit);
    Heap.AllocFreeRestores(before, REPLY_BUFFER, heap.start, heap.limit);
    var buffer := heap.Allocate(REPLY_BUFFER);
    if buffer == 0 { return false; }
    var reply := new Octet[REPLY_BUFFER](_ => 0);
    BuildReply(pkt, reply, ihl);
    uart.Send(reply[..|pkt|]);
    heap.Release(buffer);
    return true;
  }

  method BuildReply(pkt: seq<Octet>, reply: array<Octet>, ihl: nat)
    requires Answers(pkt) && ihl == HeaderLength(pkt) && |pkt| <= reply.Length == REPLY_BUFFER
    modifies reply
    ensures reply[..|pkt|] == Reply(pkt)
  {
    hide Verifies, Turned, WithChecksum;
    Copy(reply, 0, pkt);
    assert reply[..|pkt|] == pkt;
    TurnHeader(pkt, reply, ihl);
    ghost var t := reply[..|pkt|];
    assert t[..ihl] == reply[..ihl] && t[ihl..] == reply[ihl..|pkt|];
    SealBoth(reply, ihl, |pkt|);
  }

  /** Both checksums, the header's and then the message's. */
  method SealBoth(reply: array<Octet>, ihl: nat, n: nat)
    requires IP_HEADER <= ihl && ihl + 8 <= n <= reply.Length == REPLY_BUFFER
    modifies reply
    ensures reply[..n] == WithChecksum(old(reply[..ihl]), 10) + WithChecksum(old(reply[ihl..n]), 2)
  {
    hide WithChecksum;
    ghost var h, m := reply[..ihl], reply[ihl..n];
    assert reply[0..ihl] == h;
    Seal(reply, 0, ihl, 10);
    assert reply[ihl..n] == reply[ihl..][..n - ihl] == m;
    Seal(reply, ihl, n, 2);
    assert reply[..ihl] == WithChecksum(h, 10) && reply[..n] == reply[..ihl] + reply[ihl..n];
  }

  /** Stores the checksum of the bytes from `lo` to `hi` in their field, low byte first. */
  method Seal(reply: array<Octet>, lo: nat, hi: nat, field: nat)
    requires lo + field + 1 < hi <= reply.Length == REPLY_BUFFER && field % 2 == 0
    modifies reply
    ensures reply[lo..hi] == WithChecksum(old(reply[lo..hi]), field)
    ensures reply[..lo] == old(reply[..lo]) && reply[hi..] == old(reply[hi..])
  {
    hide Checksum;
    var c := ComputeChecksum(reply[lo..hi]);
    reply[lo + field], reply[lo + field + 1] := c % 256, c / 256;
  }

  method TurnHeader(pkt: seq<Octet>, reply: array<Octet>, ihl: nat)
    requires Answers(pkt) && ihl == HeaderLength(pkt) && |pkt| <= reply.Length && reply[..|pkt|] == pkt
    modifies reply
    ensures reply[..|pkt|] == Turned(pkt)
  {
    hide Verifies;
    assert forall k :: 0 <= k < |pkt| ==> reply[k] == reply[..|pkt|][k] == pkt[k];
    TurnBytes(pkt, reply, ihl);
  }

  method TurnBytes(pkt: seq<Octet>, reply: array<Octet>, ihl: nat)
    requires IP_HEADER <= ihl && ihl + 8 <= |pkt| <= reply.Length
    requires forall k :: 0 <= k < |pkt| ==> reply[k] == pkt[k]
    modifies reply
    ensures forall k :: 0 <= k < |pkt| ==> reply[k] == TurnedByte(pkt, ihl, k)
  {
    SwapAddresses(pkt, reply);
    ghost var s := reply[..];
    if reply[8] > 0 { reply[8] := reply[8] - 1; }
    reply[10], reply[11] := 0, 0;
    reply[ihl] := ECHO_REPLY;
    reply[ihl + 2], reply[ihl + 3] := 0, 0;
    forall k | 0 <= k < |pkt| ensures reply[k] == TurnedByte(pkt, ihl, k) {
      assert s[k] == SwappedByte(pkt, k);
    }
  }

  function SwappedByte(pkt: seq<Octet>, k: nat): Octet
    requires k < |pkt|
  {
    if 12 <= k < 16 then OUR_IP[k - 12] else if 16 <= k < 20 then pkt[k - 4] else pkt[k]
  }

  method SwapAddresses(pkt: seq<Octet>, reply: array<Octet>)
    requires IP_HEADER <= |pkt| <= reply.Length
    requires forall k :: 0 <= k < |pkt| ==> reply[k] == pkt[k]
    modifies reply
    ensures forall k :: 0 <= k < |pkt| ==> reply[k] == SwappedByte(pkt, k)
  {
    reply[16], reply[17], reply[18], reply[19] := pkt[12], pkt[13], pkt[14], pkt[15];
    reply[12], reply[13], reply[14], reply[15] := OUR_IP[0], OUR_IP[1], OUR_IP[2], OUR_IP[3];
  }

  /** A ping to this host is answered, and the answer's checksums verify at the sender. */
  lemma PingAnswered(message: seq<Octet>)
    requires |message| >= 8 && message[0] == ECHO_REQUEST
    ensures var pkt := PingHeader(0xC0A8_0501) + message;
      Answers(pkt) && Verifies(Reply(pkt)[..IP_HEADER]) && Verifies(Reply(pkt)[IP_HEADER..])
  {
    hide Verifies, Reply, PingHeader;
    var h := PingHeader(0xC0A8_0501);
    PingHeaderVerifies(0xC0A8_0501);
    PingHeaderBytes(0xC0A8_0501);
    OurAddress();
    assert (h + message)[..IP_HEADER] == h && (h + message)[16..20] == h[16..20];
    ReplyVerifies(h + message);
  }

  // ----- Over the wire -----

  /** `net_read`: one packet from the link, handed to `handle_ip`; its length, or -1. */
  method NetRead(uart: Uart, buf: array<Octet>, active: bool, heap: Heap.KernelHeap) returns (n: int)
    requires buf.Length <= REPLY_BUFFER && heap.Valid()
    modifies uart, buf, heap
    ensures heap.Valid() && heap.blocks == old(heap.blocks)
    ensures !active || buf.Length == 0 ==> n == -1 && uart.input == old(uart.input) && uart.output == old(uart.output)
    ensures active && buf.Length > 0 ==>
      match Recv(old(uart.input), IDLE, buf.Length)
      case Packet(pkt, rest) =>
        0 < n <= buf.Length && buf[..n] == pkt && uart.input == rest && uart.output == old(uart.output) +
          if Answers(pkt) && Heap.Alloc(heap.blocks, REPLY_BUFFER).ptr != 0 then Frame(Reply(pkt)) else []
      case Waiting => n == -1 && uart.output == old(uart.output)
  {
    hide Recv, Answers, Reply, Frame, Heap.Alloc, Heap.Canonical, Heap.Linked;
    if !active || buf.Length == 0 { return -1; }
    ghost var reception := Recv(uart.input, IDLE, buf.Length);
    var length := uart.Receive(buf, buf.Length);
    if length == 0 { return -1; }
    assert reception.Packet? && length <= buf.Length;
    var sent := HandleIp(buf[..length], uart, heap);
    return length;
  }

  /** A ping sent as a frame to this host arrives whole, the reply goes back as one frame that arrives whole,
      and both of its checksums verify there. */
  lemma PingOverTheWire(message: seq<Octet>, maxlen: nat)
    requires |message| >= 8 && message[0] == ECHO_REQUEST && IP_HEADER + |message| <= maxlen
    ensures var pkt := PingHeader(0xC0A8_0501) + message;
      Recv(Frame(pkt), IDLE, maxlen) == Packet(pkt, []) && Answers(pkt) &&
      Recv(Frame(Reply(pkt)), IDLE, maxlen) == Packet(Reply(pkt), []) &&
      Verifies(Reply(pkt)[..IP_HEADER]) && Verifies(Reply(pkt)[IP_HEADER..])
  {
    hide Verifies, PingHeader, Frame, Recv;
    var pkt := PingHeader(0xC0A8_0501) + message;
    PingHeaderBytes(0xC0A8_0501);
    PingAnswered(message);
    hide Reply;
    ReplyVerifies(pkt);
    FrameReceived(pkt, [], maxlen);
    FrameReceived(Reply(pkt), [], maxlen);
    assert Frame(pkt) + [] == Frame(pkt) && Frame(Reply(pkt)) + [] == Frame(Reply(pkt));
  }

  lemma OurAddress()
    ensures HeaderBytes(0xC0A8_0501)[16..20] == OUR_IP
  {}

  lemma PingHeaderBytes(destination: nat)
    ensures var h := PingHeader(destination);
      |h| == IP_HEADER && h[0] == 0x45 && h[9] == ICMP_PROTOCOL && h[16..20] == HeaderBytes(destination)[16..20]
  {}
}
