/** UDP over the loopback path: kernel/net/udp/udp.c and kernel/net/ipv4/ipv4.c. A datagram is built,
    wrapped in an IPv4 header (section 3.1 of RFC 791, UDP header of RFC 768), parsed again and put into
    the queue of its port. Fields are stored as the little-endian machine stores them. */
module Loopback {
  import opened Bytes
  import opened Common
  import Checksum

  const MAX_PORTS := 16
  const BUF_SIZE := 2048
  const UDP_BUF := 1472
  const UDP_HEADER := 8
  const IP_HEADER := 20
  const ETH_HEADER := 14
  const PROTO_UDP: byte := 17
  const PROTO_ICMP: byte := 1
  const ICMP_HEADER := 8
  const REPLY_BUF := 512
  const LOCALHOST := 0x0100_007F

  // ---- byte order ----

  /** `(v >> 8) | (v << 8)` in 16 bits */
  function Bswap16(v: nat): (r: nat)
    requires v < 0x1_0000
    ensures r < 0x1_0000
  {
    v / 0x100 + v % 0x100 * 0x100
  }

  lemma BswapTwice(v: nat)
    requires v < 0x1_0000
    ensures Bswap16(Bswap16(v)) == v
  {
    var hi, lo := v / 0x100, v % 0x100;
    var r := Bswap16(v);
    assert r == hi + 0x100 * lo;
    assert r / 0x100 == lo && r % 0x100 == hi;
  }

  /** A number stored with its high byte first, as the network has it, and swapped after loading: the bytes
      of a swapped number are its high and its low byte. */
  lemma SwapIsNetwork(s: seq<byte>, at: nat)
    requires at + 2 <= |s|
    ensures Bswap16(Le16(s, at)) == 0x100 * s[at] as int + s[at + 1] as int
  {
    var hi, lo := s[at + 1] as int, s[at] as int;
    assert Le16(s, at) == lo + 0x100 * hi;
    assert Le16(s, at) / 0x100 == hi && Le16(s, at) % 0x100 == lo;
  }

  lemma NetworkBytes(v: nat)
    requires v < 0x1_0000
    ensures ToLe16(Bswap16(v)) == [v / 0x100, v % 0x100]
  {
    var hi, lo := v / 0x100, v % 0x100;
    LeBytes(Bswap16(v));
    assert Bswap16(v) == hi + 0x100 * lo;
    assert Bswap16(v) / 0x100 == lo && Bswap16(v) % 0x100 == hi;
  }

  // ---- headers ----

  function UdpHeader(src: nat, dst: nat, total: nat): (h: seq<byte>)
    requires src < 0x1_0000 && dst < 0x1_0000 && total < 0x1_0000
    ensures |h| == UDP_HEADER
    ensures h == [src / 0x100, src % 0x100, dst / 0x100, dst % 0x100, total / 0x100, total % 0x100, 0, 0]
  {
    NetworkBytes(src);
    NetworkBytes(dst);
    NetworkBytes(total);
    ToLe16(Bswap16(src)) + ToLe16(Bswap16(dst)) + ToLe16(Bswap16(total)) + [0, 0]
  }

  /** The IPv4 header with its checksum field zero. */
  function IpHeader(total: nat, id: nat, protocol: byte, src: nat, dst: nat): (h: seq<byte>)
    requires total < 0x1_0000 && id < 0x1_0000 && src < 0x1_0000_0000 && dst < 0x1_0000_0000
    ensures |h| == IP_HEADER
    ensures h[..12] == [0x45, 0, total / 0x100, total % 0x100, id / 0x100, id % 0x100, 0, 0, 64, protocol, 0, 0]
    ensures Le32(h, 12) == src && Le32(h, 16) == dst
  {
    NetworkBytes(total);
    NetworkBytes(id);
    [0x45, 0] + ToLe16(Bswap16(total)) + ToLe16(Bswap16(id)) + [0, 0, 64, protocol, 0, 0] + ToLe32(src) + ToLe32(dst)
  }

  /** The frame that ipv4_send builds on the loopback path. */
  ghost function Frame(id: nat, protocol: byte, src: nat, dst: nat, payload: seq<byte>): (f: seq<byte>)
    requires IP_HEADER + |payload| < 0x1_0000 && id < 0x1_0000 && src < 0x1_0000_0000 && dst < 0x1_0000_0000
  {
    var h := IpHeader(IP_HEADER + |payload|, id, protocol, src, dst);
    seq(12, _ => 0) + [8, 0] + Overlay(h, 10, ToLe16(0xFFFF - Checksum.Ones(Checksum.WordSum(h)))) + payload
  }

  lemma FrameIs(id: nat, protocol: byte, src: nat, dst: nat, payload: seq<byte>, sum: nat)
    requires IP_HEADER + |payload| < 0x1_0000 && id < 0x1_0000 && src < 0x1_0000_0000 && dst < 0x1_0000_0000
    requires sum == 0xFFFF - Checksum.Ones(Checksum.WordSum(IpHeader(IP_HEADER + |payload|, id, protocol, src, dst)))
    ensures Frame(id, protocol, src, dst, payload) ==
            seq(12, _ => 0) + [8, 0] + Overlay(IpHeader(IP_HEADER + |payload|, id, protocol, src, dst), 10, ToLe16(sum)) + payload
  {
  }

  /** The part of ipv4_send that fills the buffer. */
  method BuildFrame(id: nat, protocol: byte, src: nat, dst: nat, payload: seq<byte>) returns (frame: seq<byte>)
    requires IP_HEADER + |payload| < 0x1_0000 && id < 0x1_0000 && src < 0x1_0000_0000 && dst < 0x1_0000_0000
    ensures frame == Frame(id, protocol, src, dst, payload)
  {
    hide Frame;
    var hdr := IpHeader(IP_HEADER + |payload|, id, protocol, src, dst);
    var sum := Checksum.Compute(hdr);
    hdr := Overlay(hdr, 10, ToLe16(sum));
    frame := seq(12, _ => 0) + [8, 0] + hdr + payload;
    FrameIs(id, protocol, src, dst, payload, sum);
  }

  /** Every header that the loopback path builds has a checksum that verifies. */
  lemma HeaderVerifies(id: nat, protocol: byte, src: nat, dst: nat, payload: seq<byte>)
    requires IP_HEADER + |payload| < 0x1_0000 && id < 0x1_0000 && src < 0x1_0000_0000 && dst < 0x1_0000_0000
    ensures var f := Frame(id, protocol, src, dst, payload);
            Checksum.Ones(Checksum.WordSum(f[ETH_HEADER..ETH_HEADER + IP_HEADER])) == 0xFFFF
  {
    var h := IpHeader(IP_HEADER + |payload|, id, protocol, src, dst);
    assert h[10] == h[..12][10] && h[11] == h[..12][11];
    Checksum.StoredChecksumVerifies(h, 10);
    var h' := Overlay(h, 10, ToLe16(0xFFFF - Checksum.Ones(Checksum.WordSum(h))));
    assert Frame(id, protocol, src, dst, payload)[ETH_HEADER..ETH_HEADER + IP_HEADER] == h';
  }

  /** Where the header and the payload lie in the frame. */
  lemma FrameLayout(id: nat, protocol: byte, src: nat, dst: nat, payload: seq<byte>)
    requires IP_HEADER + |payload| < 0x1_0000 && id < 0x1_0000 && src < 0x1_0000_0000 && dst < 0x1_0000_0000
    ensures var f, h := Frame(id, protocol, src, dst, payload), IpHeader(IP_HEADER + |payload|, id, protocol, src, dst);
            && |f| == ETH_HEADER + IP_HEADER + |payload| && f[ETH_HEADER + IP_HEADER..] == payload
            && (forall i :: 0 <= i < 12 ==> f[i] == 0) && f[12] == 8 && f[13] == 0
            && forall i {:trigger f[i]} :: 14 <= i < 34 && i != 24 && i != 25 ==> f[i] == h[i - 14]
  {
    hide IpHeader;
    var f, h := Frame(id, protocol, src, dst, payload), IpHeader(IP_HEADER + |payload|, id, protocol, src, dst);
    var h' := Overlay(h, 10, ToLe16(0xFFFF - Checksum.Ones(Checksum.WordSum(h))));
    forall i | 14 <= i < 34 && i != 24 && i != 25 ensures f[i] == h[i - 14] {
      assert f[i] == h'[i - 14];
    }
  }

  /** What ipv4_handle reads from such a frame: its fields and its payload. */
  lemma FrameParses(id: nat, protocol: byte, src: nat, dst: nat, payload: seq<byte>)
    requires IP_HEADER + |payload| < 0x1_0000 && id < 0x1_0000 && src < 0x1_0000_0000 && dst < 0x1_0000_0000
    ensures var f := Frame(id, protocol, src, dst, payload);
            && |f| == ETH_HEADER + IP_HEADER + |payload| && f[ETH_HEADER] == 0x45 && f[ETH_HEADER + 9] == protocol
            && (forall i :: 0 <= i < 12 ==> f[i] == 0) && f[12] == 8 && f[13] == 0 && f[22] == 64
            && f[18] == id / 0x100 && f[19] == id % 0x100 && Le32(f, 30) == dst
            && 0x100 * f[ETH_HEADER + 2] as int + f[ETH_HEADER + 3] as int == IP_HEADER + |payload| && Le32(f, ETH_HEADER + 12) == src
            && f[ETH_HEADER + IP_HEADER..] == payload
  {
    hide Frame, IpHeader;
    var h := IpHeader(IP_HEADER + |payload|, id, protocol, src, dst);
    var f := Frame(id, protocol, src, dst, payload);
    FrameLayout(id, protocol, src, dst, payload);
    assert f[14] == h[..12][0] && f[23] == h[..12][9] && f[16] == h[..12][2] && f[17] == h[..12][3];
    assert f[18] == h[..12][4] && f[19] == h[..12][5] && f[22] == h[..12][8];
  }

  // ---- the port table ----

  datatype Queue = Queue(port: nat, buffer: seq<byte>, length: nat, active: bool)

  datatype Received = Blocks | Data(bytes: seq<byte>)

  /** `ports` maps the port of each active queue to the data waiting there; no port has two queues. */
  ghost predicate Describes(qs: seq<Queue>, ports: map<nat, seq<byte>>) {
    && (forall i :: 0 <= i < |qs| ==> |qs[i].buffer| == BUF_SIZE && qs[i].length <= BUF_SIZE)
    && (forall i, j :: 0 <= i < j < |qs| && qs[i].active && qs[j].active ==> qs[i].port != qs[j].port)
    && (forall i :: 0 <= i < |qs| && qs[i].active ==> qs[i].port in ports && ports[qs[i].port] == qs[i].buffer[..qs[i].length])
    && forall p :: p in ports ==> HasQueue(qs, p)
  }

  ghost predicate HasQueue(qs: seq<Queue>, p: nat) {
    exists i :: 0 <= i < |qs| && qs[i].active && qs[i].port == p
  }

  /** Rewriting a port's queue, or giving it a free one, updates one binding. */
  lemma PutQueue(qs: seq<Queue>, ports: map<nat, seq<byte>>, slot: nat, q: Queue)
    requires Describes(qs, ports) && slot < |qs| && q.active && |q.buffer| == BUF_SIZE && q.length <= BUF_SIZE
    requires if qs[slot].active then qs[slot].port == q.port else q.port !in ports
    ensures Describes(qs[slot := q], ports[q.port := q.buffer[..q.length]])
  {
    var qs', ports' := qs[slot := q], ports[q.port := q.buffer[..q.length]];
    forall p | p in ports' ensures HasQueue(qs', p) {
      if p == q.port {
        assert qs'[slot].active && qs'[slot].port == p;
      } else {
        assert HasQueue(qs, p);
        var i :| 0 <= i < |qs| && qs[i].active && qs[i].port == p;
        assert qs'[i].active && qs'[i].port == p;
      }
    }
  }

  lemma QueueSizes(qs: seq<Queue>, ports: map<nat, seq<byte>>, i: nat)
    requires Describes(qs, ports) && i < |qs|
    ensures |qs[i].buffer| == BUF_SIZE && qs[i].length <= BUF_SIZE
    ensures qs[i].active ==> qs[i].port in ports && ports[qs[i].port] == qs[i].buffer[..qs[i].length]
  {
  }

  /** The port that a segment is for. */
  function PortOf(segment: seq<byte>): nat
    requires |segment| >= UDP_HEADER
  {
    0x100 * segment[2] as int + segment[3] as int
  }

  /** How many bytes udp_handle copies: the header's length without the header, in 16 bits, and at most
      the size of a queue's buffer. */
  function Copied(segment: seq<byte>): nat
    requires |segment| >= UDP_HEADER
  {
    Min((0x100 * segment[4] as int + segment[5] as int - 8) % 0x1_0000, 2048)
  }

  /** The segment has that many. */
  predicate CopyInside(segment: seq<byte>) {
    |segment| >= UDP_HEADER ==> UDP_HEADER + Copied(segment) <= |segment|
  }

  /** Where ipv4_handle takes the payload of a frame to begin, and its length in 16 bits. */
  function PayloadAt(frame: seq<byte>): nat
    requires |frame| >= ETH_HEADER + IP_HEADER
  {
    14 + frame[14] as int % 16 * 4
  }

  function PayloadLength(frame: seq<byte>): nat
    requires |frame| >= ETH_HEADER + IP_HEADER
  {
    (0x100 * frame[16] as int + frame[17] as int - frame[14] as int % 16 * 4) % 0x1_0000
  }

  function PayloadOf(frame: seq<byte>): seq<byte>
    requires |frame| >= ETH_HEADER + IP_HEADER && PayloadAt(frame) + PayloadLength(frame) <= |frame|
  {
    frame[PayloadAt(frame)..PayloadAt(frame) + PayloadLength(frame)]
  }

  /** So ipv4_handle finds the payload that ipv4_send wrapped. */
  lemma FrameCarries(id: nat, protocol: byte, src: nat, dst: nat, payload: seq<byte>)
    requires IP_HEADER + |payload| < 0x1_0000 && id < 0x1_0000 && src < 0x1_0000_0000 && dst < 0x1_0000_0000
    ensures var f := Frame(id, protocol, src, dst, payload);
            && |f| >= ETH_HEADER + IP_HEADER && PayloadAt(f) + PayloadLength(f) <= |f| && PayloadOf(f) == payload
            && f[ETH_HEADER + 9] == protocol && Le32(f, ETH_HEADER + 12) == src
  {
    hide Frame, Le32;
    FrameParses(id, protocol, src, dst, payload);
    var f := Frame(id, protocol, src, dst, payload);
    assert PayloadAt(f) == 34 && PayloadLength(f) == |payload|;
  }

  /** An ICMP echo request, which ipv4_handle answers. */
  predicate IsEchoRequest(protocol: byte, payload: seq<byte>) {
    protocol == PROTO_ICMP && |payload| >= ICMP_HEADER && payload[0] == 8
  }

  ghost predicate IsReply(payload: seq<byte>, reply: seq<byte>) {
    && |reply| == Min(|payload|, 512) && |reply| >= 8 && reply[0] == 0 && reply[1] == 0
    && (forall i :: 4 <= i < |reply| ==> reply[i] == payload[i])
    && Checksum.Ones(Checksum.WordSum(reply)) == 0xFFFF
  }

  /** The answer to an echo request: its bytes, up to the size of the reply buffer, with type and code 0 and
      a checksum that verifies. */
  method MakeReply(payload: seq<byte>) returns (reply: seq<byte>)
    requires |payload| >= ICMP_HEADER
    ensures IsReply(payload, reply)
  {
    reply := payload[..Min(|payload|, REPLY_BUF)];
    reply := Overlay(reply, 0, [0, 0, 0, 0]);
    assert Le16(reply, 2) == 0;
    Checksum.StoredChecksumVerifies(reply, 2);
    var sum := Checksum.Compute(reply);
    reply := Overlay(reply, 2, ToLe16(sum));
  }

  lemma ReplyFacts(payload: seq<byte>, reply: seq<byte>)
    requires IsReply(payload, reply)
    ensures 8 <= |reply| <= 512 && reply[0] == 0
  {
  }

  /** The frame holds that payload, and a UDP payload holds the bytes that udp_handle copies. */
  predicate ParseInside(frame: seq<byte>) {
    |frame| >= ETH_HEADER + IP_HEADER ==>
      && PayloadAt(frame) + PayloadLength(frame) <= |frame|
      && (frame[ETH_HEADER + 9] == PROTO_UDP ==> CopyInside(PayloadOf(frame)))
  }

  class Stack {
    const queues: array<Queue>
    const ourIp: nat
    var ipId: nat
    ghost var ports: map<nat, seq<byte>>     // active ports and the data waiting there

    ghost predicate Valid()
      reads this, queues
    {
      && queues.Length == MAX_PORTS && ipId < 0x1_0000 && ourIp < 0x1_0000_0000
      && Describes(queues[..], ports)
    }

    ghost predicate FreeSlot()
      reads this, queues
      requires queues.Length == MAX_PORTS
    {
      exists i :: 0 <= i < MAX_PORTS && !queues[i].active
    }

    /** udp_init */
    constructor (ourIp: nat)
      requires ourIp < 0x1_0000_0000
      ensures Valid() && ports == map[] && this.ourIp == ourIp && FreeSlot() && fresh(queues) && queues.Length == 16 && ipId == 0
    {
      queues := new Queue[MAX_PORTS](_ => Queue(0, seq(BUF_SIZE, _ => 0), 0, false));
      this.ourIp, ipId, ports := ourIp, 0, map[];
      new;
      assert !queues[0].active;
    }

    /** The index of the active queue of a port, or -1. */
    method FindPort(port: nat) returns (slot: int)
      requires Valid()
      ensures slot == -1 <==> port !in ports
      ensures slot != -1 ==> 0 <= slot < MAX_PORTS && queues[slot].active && queues[slot].port == port
    {
      var i := 0;
      while i < MAX_PORTS
        invariant 0 <= i <= MAX_PORTS && forall j :: 0 <= j < i ==> !(queues[j].active && queues[j].port == port)
      {
        if queues[i].active && queues[i].port == port {
          assert queues[..][i].port in ports;
          return i;
        }
        i := i + 1;
      }
      assert !HasQueue(queues[..], port);
      return -1;
    }

    /** The index of the first inactive queue, or -1. */
    method FindFree() returns (slot: int)
      requires Valid()
      ensures slot == -1 <==> !FreeSlot()
      ensures slot != -1 ==> 0 <= slot < MAX_PORTS && !queues[slot].active
    {
      var i := 0;
      while i < MAX_PORTS
        invariant 0 <= i <= MAX_PORTS && forall j :: 0 <= j < i ==> queues[j].active
      {
        if !queues[i].active {
          return i;
        }
        i := i + 1;
      }
      return -1;
    }

    /** udp_handle, for a segment that has the bytes it copies: the payload, as long as the header says
        and cut to the buffer size, replaces what was waiting on its port, a port without queue
        taking a free one; without one the datagram is dropped. */
    method Handle(segment: seq<byte>)
      requires Valid() && CopyInside(segment)
      modifies this`ports, queues
      ensures Valid() && ipId == old(ipId)
      ensures |segment| < UDP_HEADER ==> ports == old(ports)
      ensures |segment| >= UDP_HEADER ==>
                var port := 0x100 * segment[2] as int + segment[3] as int;
                ports == if port in old(ports) || old(FreeSlot()) then old(ports)[port := segment[UDP_HEADER..][..Copied(segment)]]
                         else old(ports)
    {
      hide Describes, Bswap16;
      if |segment| < UDP_HEADER {
        return;
      }
      SwapIsNetwork(segment, 2);
      SwapIsNetwork(segment, 4);
      var dst_port := Bswap16(Le16(segment, 2));
      var data_len := (Bswap16(Le16(segment, 4)) - UDP_HEADER) % 0x1_0000;
      var slot := Bind(dst_port);
      if slot != -1 {
        if data_len > BUF_SIZE {
          data_len := BUF_SIZE;
        }
        Deliver(slot, segment[UDP_HEADER..][..data_len]);
      }
    }

    /** The search of udp_handle: the queue of a port, or a free one that becomes the port's; -1 when there is
        neither. A queue taken over keeps its data until the datagram is copied. */
    method Bind(port: nat) returns (slot: int)
      requires Valid()
      modifies this`ports, queues
      ensures Valid() && ipId == old(ipId) && (slot == -1 <==> port !in old(ports) && !old(FreeSlot()))
      ensures slot == -1 ==> ports == old(ports)
      ensures slot != -1 ==> 0 <= slot < MAX_PORTS && queues[slot].active && queues[slot].port == port && port in ports
      ensures forall p :: p != port ==> (p in ports <==> p in old(ports)) && (p in ports ==> ports[p] == old(ports)[p])
    {
      hide Describes;
      slot := FindPort(port);
      if slot == -1 {
        slot := FindFree();
        if slot != -1 {
          ghost var qs := queues[..];
          QueueSizes(qs, ports, slot);
          queues[slot] := queues[slot].(active := true, port := port);
          PutQueue(qs, ports, slot, queues[slot]);
          assert queues[..] == qs[slot := queues[slot]];
          ports := ports[port := queues[slot].buffer[..queues[slot].length]];
        }
      }
    }

    /** The copy that ends udp_handle. */
    method Deliver(slot: nat, data: seq<byte>)
      requires Valid() && slot < MAX_PORTS && |data| <= BUF_SIZE && queues[slot].active
      modifies this`ports, queues
      ensures Valid() && ipId == old(ipId) && ports == old(ports)[old(queues[slot]).port := data]
    {
      hide Describes;
      ghost var qs := queues[..];
      QueueSizes(qs, ports, slot);
      var filled := Overlay(queues[slot].buffer, 0, data);
      assert filled[..|data|] == data;
      queues[slot] := queues[slot].(buffer := filled, length := |data|);
      PutQueue(qs, ports, slot, queues[slot]);
      assert queues[..] == qs[slot := queues[slot]];
      ports := ports[queues[slot].port := data];
    }

    /** udp_recv. A bound port with nothing waiting blocks; one with data gives up to `maxlen` bytes of
        it and drops the rest. An unbound port is bound if a queue is free. */
    method Recv(port: nat, maxlen: nat) returns (r: Received)
      requires Valid()
      modifies this`ports, queues
      ensures Valid() && ipId == old(ipId)
      ensures port in old(ports) && old(ports)[port] == [] ==> r == Blocks && ports == old(ports)
      ensures port in old(ports) && old(ports)[port] != [] ==>
                r == Data(old(ports)[port][..Min(|old(ports)[port]|, maxlen)]) && ports == old(ports)[port := []]
      ensures port !in old(ports) ==> r == Data([]) && ports == if old(FreeSlot()) then old(ports)[port := []] else old(ports)
    {
      hide Describes;
      var i := FindPort(port);
      ghost var qs := queues[..];
      if i != -1 {
        QueueSizes(qs, ports, i);
        if queues[i].length == 0 {
          return Blocks;
        }
        var n := Min(queues[i].length, maxlen);
        assert queues[i].buffer[..n] == queues[i].buffer[..queues[i].length][..n];
        r := Data(queues[i].buffer[..n]);
        queues[i] := queues[i].(length := 0);
        PutQueue(qs, ports, i, queues[i]);
        assert queues[..] == qs[i := queues[i]];
        ports := ports[port := []];
        return;
      }
      i := FindFree();
      if i != -1 {
        QueueSizes(qs, ports, i);
        queues[i] := queues[i].(active := true, port := port, length := 0);
        PutQueue(qs, ports, i, queues[i]);
        assert queues[..] == qs[i := queues[i]];
        ports := ports[port := []];
      }
      r := Data([]);
    }

    /** ipv4_handle, for a frame that has the bytes it names: a UDP payload goes to its port. An echo request
        from this machine is answered, which takes one more frame; one from another machine is not
        modelled. Any other frame changes nothing. */
    method HandleFrame(frame: seq<byte>) returns (reply: seq<byte>)
      requires Valid() && ParseInside(frame)
      requires |frame| >= ETH_HEADER + IP_HEADER && IsEchoRequest(frame[ETH_HEADER + 9], PayloadOf(frame)) ==>
                 Le32(frame, ETH_HEADER + 12) == LOCALHOST || Le32(frame, ETH_HEADER + 12) == ourIp
      modifies this`ports, this`ipId, queues
      ensures Valid()
      ensures |frame| < ETH_HEADER + IP_HEADER ==> ports == old(ports) && ipId == old(ipId) && reply == []
      ensures |frame| >= ETH_HEADER + IP_HEADER ==>
                if IsEchoRequest(frame[ETH_HEADER + 9], PayloadOf(frame)) then IsReply(PayloadOf(frame), reply) else reply == []
      ensures |frame| >= ETH_HEADER + IP_HEADER ==>
                ipId == if IsEchoRequest(frame[ETH_HEADER + 9], PayloadOf(frame)) then (old(ipId) + 1) % 0x1_0000 else old(ipId)
      ensures |frame| >= ETH_HEADER + IP_HEADER ==>
              var s := PayloadOf(frame);
              ports == if frame[ETH_HEADER + 9] == PROTO_UDP && |s| >= UDP_HEADER
                          && (PortOf(s) in old(ports) || old(FreeSlot()))
                       then old(ports)[PortOf(s) := s[UDP_HEADER..][..Copied(s)]]
                       else old(ports)
      decreases if |frame| >= ETH_HEADER + IP_HEADER && IsEchoRequest(frame[ETH_HEADER + 9], PayloadOf(frame)) then 2 else 0
    {
      hide Bswap16, Copied, Describes, IsReply;
      reply := [];
      if |frame| < ETH_HEADER + IP_HEADER {
        return;
      }
      SwapIsNetwork(frame, ETH_HEADER + 2);
      var ihl := frame[ETH_HEADER] as int % 16 * 4;
      var total := Bswap16(Le16(frame, ETH_HEADER + 2));
      var plen := (total - ihl) % 0x1_0000;
      var payload := frame[ETH_HEADER + ihl..ETH_HEADER + ihl + plen];
      if frame[ETH_HEADER + 9] == PROTO_UDP {
        Handle(payload);
      } else if frame[ETH_HEADER + 9] == 1 && plen >= 8 && payload[0] == 8 {
        reply := MakeReply(payload);
        ReplyFacts(payload, reply);
        var _, _ := SendIp(Le32(frame, ETH_HEADER + 12), PROTO_ICMP, reply);
      }
    }

    /** The loopback path of ipv4_send. An echo request is answered at once, so that two frames are
        numbered. */
    method SendIp(dst: nat, protocol: byte, payload: seq<byte>) returns (ok: bool, frame: seq<byte>)
      requires Valid() && dst < 0x1_0000_0000 && IP_HEADER + |payload| < 0x1_0000 && (dst == LOCALHOST || dst == ourIp)
      requires protocol == PROTO_UDP ==> CopyInside(payload)
      modifies this`ports, this`ipId, queues
      ensures Valid()
      ensures ok <==> ETH_HEADER + IP_HEADER + |payload| <= 1518
      ensures !ok ==> ports == old(ports) && ipId == old(ipId)
      ensures ok ==> frame == Frame(old(ipId), protocol, ourIp, dst, payload)
      ensures ok ==> ipId == (old(ipId) + if IsEchoRequest(protocol, payload) then 2 else 1) % 0x1_0000
      ensures ok ==> ports == if protocol == PROTO_UDP && |payload| >= UDP_HEADER
                                 && (PortOf(payload) in old(ports) || old(FreeSlot()))
                              then old(ports)[PortOf(payload) := payload[UDP_HEADER..][..Copied(payload)]]
                              else old(ports)
      decreases if IsEchoRequest(protocol, payload) then 3 else 1
    {
      hide Overlay, Frame, Describes, Copied, PortOf, PayloadOf, PayloadAt, PayloadLength, CopyInside, Le32;
      var total := IP_HEADER + |payload|;
      if total + ETH_HEADER > 1518 {
        return false, [];
      }
      FrameCarries(ipId, protocol, ourIp, dst, payload);
      frame := BuildFrame(ipId, protocol, ourIp, dst, payload);
      ipId := (ipId + 1) % 0x1_0000;
      var _ := HandleFrame(frame);
      ok := true;
    }

    /** udp_send to this machine, for every 16-bit length. Payloads of up to 1464 bytes are delivered.
        From 65528 bytes on the 16-bit total wraps and passes the guard, and the copy that follows
        runs over the end of the buffer: `overrun` says so, and nothing is promised then. */
    method Send(dst: nat, port: nat, payload: seq<byte>) returns (ok: bool, overrun: bool, frame: seq<byte>)
      requires Valid() && dst < 0x1_0000_0000 && port < 0x1_0000 && (dst == LOCALHOST || dst == ourIp)
      requires |payload| < 0x1_0000
      modifies this`ports, this`ipId, queues
      ensures (ok <==> |payload| <= 1464) && (overrun <==> |payload| >= 65528)
      ensures ok ==> frame == Frame(old(ipId), PROTO_UDP, ourIp, dst, UdpHeader(1234, port, |payload| + 8) + payload)
      ensures !overrun ==> Valid() && ports == if ok && (port in old(ports) || old(FreeSlot())) then old(ports)[port := payload] else old(ports)
    {
      hide Describes, Copied, CopyInside, Frame, PortOf, UdpHeader;
      var total := (UDP_HEADER + |payload|) % 0x1_0000;
      if total > UDP_BUF {
        return false, false, [];
      }
      if UDP_HEADER + |payload| > UDP_BUF {
        return false, true, [];
      }
      var segment := UdpHeader(1234, port, total) + payload;
      SegmentParses(1234, port, payload);
      ok, frame := SendIp(dst, PROTO_UDP, segment);
      overrun := false;
      assert payload[..|payload|] == payload;
    }

    /** A payload of 1 to 1464 bytes sent to this machine, with a queue for its port or a free one, is
        what the next receive on that port returns, cut to `maxlen`; no other port is touched. */
    method Echo(dst: nat, port: nat, payload: seq<byte>, maxlen: nat) returns (r: Received)
      requires Valid() && dst < 0x1_0000_0000 && port < 0x1_0000 && (dst == LOCALHOST || dst == ourIp)
      requires 1 <= |payload| <= 1464 && (port in ports || FreeSlot())
      modifies this`ports, this`ipId, queues
      ensures Valid() && r == Data(payload[..Min(|payload|, maxlen)])
      ensures ports == old(ports)[port := []]
    {
      hide Describes;
      var _, _, _ := Send(dst, port, payload);
      r := Recv(port, maxlen);
    }
  }

  lemma SegmentParses(src: nat, dst: nat, payload: seq<byte>)
    requires src < 0x1_0000 && dst < 0x1_0000 && UDP_HEADER + |payload| < 0x1_0000
    ensures var s := UdpHeader(src, dst, UDP_HEADER + |payload|) + payload;
            && |s| == UDP_HEADER + |payload| && s[UDP_HEADER..] == payload
            && PortOf(s) == dst && 0x100 * s[4] as int + s[5] as int == |s|
            && Copied(s) == Min(|payload|, BUF_SIZE) && CopyInside(s)
  {
    var h := UdpHeader(src, dst, UDP_HEADER + |payload|);
    var s := h + payload;
    assert s[2] == h[2] && s[3] == h[3] && s[4] == h[4] && s[5] == h[5];
  }
}
