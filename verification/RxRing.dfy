/** The receive ring of kernel/drivers/net/rtl8169.c: descriptors pass between driver and NIC by an
    ownership bit. The driver's steps are the source's; the NIC's step is what the descriptor format
    asks of the device: fill the next descriptor it owns, hand it over, and go on to the next one, back
    to the first after the descriptor marked as end of ring. */
module RxRing {
  import opened Bytes
  import opened Common

  const NUM := 16
  const PACKET := 1536
  const OWN := 0x8000_0000
  const EOR := 0x4000_0000
  const LENGTHS := 0x4000           // the low 14 bits hold the packet length

  predicate Owned(cmd: nat) { cmd / OWN % 2 == 1 }
  predicate EndOfRing(cmd: nat) { cmd / EOR % 2 == 1 }

  function Restored(i: nat): (cmd: nat)
    ensures Owned(cmd) && (EndOfRing(cmd) <==> i == NUM - 1) && cmd % LENGTHS == PACKET
  {
    OWN + PACKET + if i == NUM - 1 then EOR else 0
  }

  /** A descriptor handed over by the NIC: ownership clear, end-of-ring kept, other status bits
      arbitrary. */
  function Filled(cmd: nat, status: nat, len: nat): (r: nat)
    requires status < 0x1_0000 && len <= PACKET
    ensures !Owned(r) && (EndOfRing(r) <==> EndOfRing(cmd)) && r % LENGTHS == len
  {
    (if EndOfRing(cmd) then EOR else 0) + status * LENGTHS + len
  }

  /** The place `k` steps after `i` around the ring. */
  function Place(i: nat, k: nat): (j: nat)
    requires i < NUM && k <= NUM
    ensures j < NUM
  {
    (i + k) % NUM
  }

  function Cut(frame: seq<byte>, maxlen: nat): seq<byte> {
    if |frame| <= maxlen then frame else frame[..maxlen]
  }

  /** What can happen next: a frame reaches the NIC, or the driver takes the next of the three steps of
      a receive call: read the command word, copy the packet, give the descriptor back. `maxlen` is
      the argument of the call that the first of them begins. */
  datatype Step = Arrive(frame: seq<byte>, status: nat) | Drive(maxlen: nat)

  ghost predicate ProperStep(s: Step) {
    s.Arrive? ==> s.status < 0x1_0000
  }

  /** Where the driver stands: outside a call, or with a length read, or with the packet copied. */
  datatype Phase = Idle | Read(maxlen: nat) | Copied(maxlen: nat)

  // ---- the ring as a bounded queue ----

  /** A queue of at most NUM frames of at most PACKET bytes. `accepted` and `returned` record everything that went in and came
      out, `cuts` the limits of the calls that returned it, `refused` the frames that found no room. */
  datatype Fifo = Fifo(pending: seq<seq<byte>>, phase: Phase, accepted: seq<seq<byte>>, refused: seq<seq<byte>>,
                       returned: seq<seq<byte>>, cuts: seq<nat>)

  const EMPTY := Fifo([], Idle, [], [], [], [])

  function After(f: Fifo, s: Step): Fifo
    requires f.phase.Idle? || f.pending != []
  {
    match s
    case Arrive(frame, _) =>
      if |f.pending| < NUM && |frame| <= PACKET then f.(pending := f.pending + [frame], accepted := f.accepted + [frame])
      else f.(refused := f.refused + [frame])
    case Drive(maxlen) =>
      match f.phase
      case Idle => if f.pending == [] then f else f.(phase := Read(maxlen))
      case Read(m) => f.(phase := Copied(m))
      case Copied(m) => f.(pending := f.pending[1..], phase := Idle, returned := f.returned + [Cut(f.pending[0], m)], cuts := f.cuts + [m])
  }

  /** The queue after a sequence of steps. */
  function AfterAll(steps: seq<Step>): (f: Fifo)
    ensures f.phase.Idle? || f.pending != []
    ensures |f.pending| <= NUM
  {
    if steps == [] then EMPTY else After(AfterAll(steps[..|steps| - 1]), steps[|steps| - 1])
  }

  /** The frames that arrived, in order. */
  function Arrivals(steps: seq<Step>): seq<seq<byte>> {
    if steps == [] then []
    else
      var before, s := Arrivals(steps[..|steps| - 1]), steps[|steps| - 1];
      if s.Arrive? then before + [s.frame] else before
  }

  /** `a` is what remains of `b` when some elements are left out. */
  ghost predicate Subsequence(a: seq<seq<byte>>, b: seq<seq<byte>>) {
    if b == [] then a == []
    else
      || Subsequence(a, b[..|b| - 1])
      || (a != [] && a[|a| - 1] == b[|b| - 1] && Subsequence(a[..|a| - 1], b[..|b| - 1]))
  }

  /** What has been returned is, in order, a prefix of what was accepted, each frame cut to the limit of
      its call; the rest of what was accepted is pending. */
  ghost predicate Orderly(f: Fifo) {
    && |f.cuts| == |f.returned| <= |f.accepted| && f.accepted[|f.returned|..] == f.pending
    && forall i :: 0 <= i < |f.returned| ==> f.returned[i] == Cut(f.accepted[i], f.cuts[i])
  }

  lemma EmptyOrderly()
    ensures Orderly(EMPTY) && Subsequence([], [])
  {
  }

  lemma OrderlyStep(f: Fifo, s: Step)
    requires Orderly(f) && (f.phase.Idle? || f.pending != [])
    ensures Orderly(After(f, s))
  {
    hide Cut;
    var g := After(f, s);
    if s.Arrive? {
      assert g.accepted[|g.returned|..] == g.pending;
    } else if f.phase.Copied? {
      assert f.accepted[|f.returned|] == f.pending[0];
      assert g.accepted[|g.returned|..] == g.pending;
    }
  }

  lemma Appended(a: seq<seq<byte>>, b: seq<seq<byte>>, x: seq<byte>)
    requires Subsequence(a, b)
    ensures Subsequence(a, b + [x]) && Subsequence(a + [x], b + [x])
  {
    assert (b + [x])[..|b|] == b && (a + [x])[..|a|] == a;
  }

  /** Over every sequence of steps frames come out in the order they were accepted, none lost or
      repeated, and every frame that arrived was accepted or refused. */
  lemma {:induction false} NoneLostOrRepeated(steps: seq<Step>)
    ensures var f := AfterAll(steps);
            && Orderly(f) && Subsequence(f.accepted, Arrivals(steps)) && Subsequence(f.refused, Arrivals(steps))
            && |f.accepted| + |f.refused| == |Arrivals(steps)|
  {
    hide Orderly, Subsequence;
    if steps == [] {
      EmptyOrderly();
    } else {
      var front, s := steps[..|steps| - 1], steps[|steps| - 1];
      var f := AfterAll(front);
      NoneLostOrRepeated(front);
      OrderlyStep(f, s);
      if s.Arrive? {
        Appended(f.accepted, Arrivals(front), s.frame);
        Appended(f.refused, Arrivals(front), s.frame);
      }
    }
  }

  /** Different steps from one place lead to different places. */
  lemma PlacesDiffer(i: nat, k: nat)
    requires i < NUM && k < NUM
    ensures forall j :: 0 <= j < NUM && j != k ==> Place(i, j) != Place(i, k)
    ensures Place(i, k + 1) == if Place(i, k) == NUM - 1 then 0 else Place(i, k) + 1
  {
  }

  /** One place on, everything is one step closer, and the place left behind is the last. */
  lemma Advanced(i: nat)
    requires i < NUM
    ensures forall k {:trigger Place((i + 1) % NUM, k)} :: 0 <= k < NUM - 1 ==> Place((i + 1) % NUM, k) == Place(i, k + 1)
    ensures Place((i + 1) % NUM, NUM - 1) == i && Place((i + 1) % NUM, NUM) == (i + 1) % NUM
    ensures forall k :: 0 < k < NUM ==> Place(i, k) != i
  {
  }

  class Ring {
    const command: array<nat>
    const buffer: array<seq<byte>>
    var rx_cur: nat
    var nic: nat                        // the NIC's position
    ghost var pending: seq<seq<byte>>   // frames handed over and not yet received

    ghost predicate Valid()
      reads this, command, buffer
    {
      && command.Length == NUM && buffer.Length == NUM && rx_cur < NUM && nic < NUM && |pending| <= NUM
      && nic == Place(rx_cur, |pending|)
      && (forall i :: 0 <= i < NUM ==> (EndOfRing(command[i]) <==> i == NUM - 1) && |buffer[i]| == PACKET)
      && forall k {:trigger Place(rx_cur, k)} :: 0 <= k < NUM ==>
           if k < |pending| then Holding(command[Place(rx_cur, k)], buffer[Place(rx_cur, k)], pending[k])
           else Offering(command[Place(rx_cur, k)], buffer[Place(rx_cur, k)])
    }

    /** The descriptor offers the NIC its buffer, and says how large it is in its low 14 bits. */
    static ghost predicate Offering(cmd: nat, buf: seq<byte>) {
      Owned(cmd) && cmd % LENGTHS == |buf|
    }

    static ghost predicate Holding(cmd: nat, buf: seq<byte>, frame: seq<byte>) {
      !Owned(cmd) && cmd % LENGTHS == |frame| <= |buf| && buf[..|frame|] == frame
    }

    /** The descriptor set-up of rtl8169_init. */
    constructor ()
      ensures Valid() && pending == [] && rx_cur == 0 && fresh(command) && fresh(buffer) && command.Length == 16
      ensures forall i :: 0 <= i < 16 ==> command[i] == if i == 15 then 0xC000_0600 else 0x8000_0600
    {
      hide Owned, EndOfRing, Holding;
      command := new nat[NUM];
      buffer := new seq<byte>[NUM](_ => seq(PACKET, _ => 0));
      rx_cur, nic, pending := 0, 0, [];
      new;
      var i := 0;
      while i < NUM
        invariant 0 <= i <= NUM && command.Length == NUM && rx_cur == 0 && nic == 0 && pending == []
        invariant forall k :: 0 <= k < i ==> command[k] == OWN + PACKET
        invariant forall k :: 0 <= k < NUM ==> |buffer[k]| == PACKET
      {
        command[i] := OWN + PACKET;
        i := i + 1;
      }
      command[NUM - 1] := command[NUM - 1] + EOR;
      assert forall k :: 0 <= k < NUM ==> command[k] == Restored(k);
    }

    /** The NIC receives a frame; it drops it when it does not own its next descriptor, or when the frame is
        larger than the buffer that the descriptor offers. */
    method NicFill(frame: seq<byte>, status: nat) returns (accepted: bool)
      requires Valid() && status < 0x1_0000
      modifies this`nic, this`pending, command, buffer
      ensures Valid() && rx_cur == old(rx_cur)
      ensures accepted <==> |old(pending)| < 16 && |frame| <= 1536
      ensures pending == if accepted then old(pending) + [frame] else old(pending)
    {
      assert nic == Place(rx_cur, if |pending| < NUM then |pending| else 0);
      if !Owned(command[nic]) || |frame| > command[nic] % LENGTHS {
        return false;
      }
      PlacesDiffer(rx_cur, |pending|);
      buffer[nic] := Overlay(buffer[nic], 0, frame);
      command[nic] := Filled(command[nic], status, |frame|);
      nic := if EndOfRing(command[nic]) then 0 else nic + 1;
      pending := pending + [frame];
      accepted := true;
    }

    /** The first step of rtl8169_receive: read the command word. No packet when the NIC still owns the
        descriptor; otherwise the length to copy. */
    method ReadCommand(maxlen: nat) returns (found: bool, len: nat)
      requires Valid()
      ensures found <==> pending != []
      ensures found <==> command[rx_cur] / 0x8000_0000 % 2 == 0
      ensures found ==> len == |Cut(pending[0], maxlen)| && len == Min(command[rx_cur] % 0x4000, maxlen)
    {
      assert rx_cur == Place(rx_cur, 0);
      var cmd_val := command[rx_cur];
      if Owned(cmd_val) {
        return false, 0;
      }
      found, len := true, cmd_val % LENGTHS;
      if len > maxlen {
        len := maxlen;
      }
    }

    /** The second step: copy the packet. */
    method CopyPacket(len: nat, ghost maxlen: nat) returns (out: seq<byte>)
      requires Valid() && pending != [] && len == |Cut(pending[0], maxlen)|
      ensures out == Cut(pending[0], maxlen)
    {
      assert rx_cur == Place(rx_cur, 0);
      out := buffer[rx_cur][..len];
    }

    /** The third step: give the descriptor back to the NIC and go on to the next one. */
    method Restore()
      requires Valid() && pending != []
      modifies this`rx_cur, this`pending, command
      ensures Valid() && nic == old(nic) && pending == old(pending)[1..] && rx_cur == (old(rx_cur) + 1) % 16
      ensures forall i :: 0 <= i < 16 ==>
                command[i] == if i != old(rx_cur) then old(command[i]) else if i == 15 then 0xC000_0600 else 0x8000_0600
    {
      assert rx_cur == Place(rx_cur, 0);
      Advanced(rx_cur);
      command[rx_cur] := Restored(rx_cur);
      rx_cur := (rx_cur + 1) % NUM;
      pending := pending[1..];
    }

    /** rtl8169_receive: returns the oldest frame handed over, cut to `maxlen`, and gives its descriptor
        back to the NIC; 0 when there is none. */
    method Receive(maxlen: nat) returns (len: nat, out: seq<byte>)
      requires Valid()
      modifies this`rx_cur, this`pending, command
      ensures Valid() && len == |out|
      ensures old(pending) == [] ==> out == [] && pending == [] && rx_cur == old(rx_cur)
      ensures old(pending) != [] ==> out == Cut(old(pending)[0], maxlen) && pending == old(pending)[1..] && rx_cur == (old(rx_cur) + 1) % 16
      ensures forall i :: 0 <= i < 16 ==>
                command[i] == if old(pending) == [] || i != old(rx_cur) then old(command[i]) else if i == 15 then 0xC000_0600 else 0x8000_0600
    {
      var found;
      found, len := ReadCommand(maxlen);
      if !found {
        return 0, [];
      }
      out := CopyPacket(len, maxlen);
      Restore();
    }

    /** Every interleaving of arriving frames with the three steps of the driver's calls: frames accepted,
        refused, returned and still pending are those of the bounded queue after the same steps. The
        descriptors with OWN clear are the cyclic interval from `rx_cur` to the NIC's position, and
        the end-of-ring mark stays on the last descriptor only (Valid). */
    method Run(steps: seq<Step>) returns (returned: seq<seq<byte>>, accepted: seq<seq<byte>>, refused: seq<seq<byte>>)
      requires Valid() && pending == [] && forall i :: 0 <= i < |steps| ==> ProperStep(steps[i])
      modifies this`rx_cur, this`nic, this`pending, command, buffer
      ensures Valid() && pending == AfterAll(steps).pending
      ensures returned == AfterAll(steps).returned && accepted == AfterAll(steps).accepted && refused == AfterAll(steps).refused
    {
      hide Cut, Place, Holding;
      returned, accepted, refused := [], [], [];
      ghost var f := EMPTY;
      var phase, len, out := Idle, 0, [];
      var n := 0;
      while n < |steps|
        invariant 0 <= n <= |steps| && Valid() && f == AfterAll(steps[..n])
        invariant returned == f.returned && accepted == f.accepted && refused == f.refused && pending == f.pending && phase == f.phase
        invariant phase.Read? ==> len == |Cut(pending[0], phase.maxlen)|
        invariant phase.Copied? ==> out == Cut(pending[0], phase.maxlen)
      {
        match steps[n] {
          case Arrive(frame, status) =>
            var ok := NicFill(frame, status);
            if ok {
              accepted := accepted + [frame];
            } else {
              refused := refused + [frame];
            }
          case Drive(maxlen) =>
            match phase {
              case Idle =>
                var found;
                found, len := ReadCommand(maxlen);
                phase := if found then Read(maxlen) else Idle;
              case Read(m) =>
                out := CopyPacket(len, m);
                phase := Copied(m);
              case Copied(m) =>
                Restore();
                returned := returned + [out];
                phase := Idle;
            }
        }
        f := After(f, steps[n]);
        assert steps[..n + 1][..n] == steps[..n];
        n := n + 1;
      }
      assert steps[..n] == steps;
    }
  }
}
