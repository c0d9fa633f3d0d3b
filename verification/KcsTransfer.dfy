/**
  Whole transfers over the channel: the host side of section 9.15 of the IPMI
  2.0 specification composed with the BMC's state machine.
 */
module KcsTransfer {
  import opened Options
  import opened IpmiHandler
  import opened KcsModel
  import opened KcsProperties

  function DataEvents(bytes: seq<byte>): seq<Event> {
    seq(|bytes|, i requires 0 <= i < |bytes| => Data(bytes[i]))
  }

  /** WRITE_START and all bytes but the last. */
  function AllButLast(r: seq<byte>): seq<Event>
    requires r != []
  {
    [Command(0x61)] + DataEvents(r[..|r| - 1])
  }

  /** The host's write phase: WRITE_START (0x61), all bytes but one, WRITE_END (0x62), the last byte. */
  function HostWrite(r: seq<byte>): seq<Event>
    requires r != []
  {
    AllButLast(r) + [Command(0x62)] + [Data(r[|r| - 1])]
  }

  /** The READ code (0x68), `n` times. */
  function Reads(n: nat): seq<Event> { seq(n, _ => Data(0x68)) }

  // ------------------------------------------------------------------ the write phase

  /** Of the first `n` bytes written, the position of the one that the 16-bit index left at `k`. */
  function Latest(n: nat, k: nat): (j: nat)
    requires k < n && k < 0x1_0000
    ensures j < n && j % 0x1_0000 == k && n <= j + 0x1_0000
  {
    k + 0x1_0000 * ((n - 1 - k) / 0x1_0000)
  }

  /** `buffer` holds the first `n` bytes of `r`, written from index 0 with a 16-bit index. */
  ghost predicate Holds(buffer: seq<byte>, was: seq<byte>, r: seq<byte>, n: nat)
    requires |buffer| == |was| == MAX_KCS_PKT_SIZE && n <= |r|
  {
    forall k | 0 <= k < MAX_KCS_PKT_SIZE :: buffer[k] == if k < n then r[Latest(n, k)] else was[k]
  }

  lemma HoldsOneMore(buffer: seq<byte>, was: seq<byte>, r: seq<byte>, n: nat)
    requires |buffer| == |was| == MAX_KCS_PKT_SIZE && n < |r|
    requires Holds(buffer, was, r, n)
    ensures Holds(buffer[n % 0x1_0000 := r[n]], was, r, n + 1)
  {
    var after := buffer[n % 0x1_0000 := r[n]];
    forall k | 0 <= k < MAX_KCS_PKT_SIZE
      ensures after[k] == if k < n + 1 then r[Latest(n + 1, k)] else was[k]
    {
      if k == n % 0x1_0000 {
        assert Latest(n + 1, k) == n;
      } else if k < n {
        assert Latest(n + 1, k) == Latest(n, k);
      }
    }
  }

  predicate Receiving(t: Bmc, n: nat, provision: Provision) {
    && t.Valid() && !t.regs.ibf && t.phase == (if n == 0 then WriteStart else WriteData)
    && t.error == NoError && !t.readReqDone && t.outIdx == 0 && t.provision == provision
    && t.regs.state == WriteState
    && t.inIdx == n % 0x1_0000
  }

  lemma StoreOneByte(t: Bmc, b: byte, n: nat, provision: Provision)
    requires Receiving(t, n, provision)
    ensures var u := Step(t, Data(b));
            Receiving(u, n + 1, provision) && u.dataIn == t.dataIn[n % 0x1_0000 := b]
  {
  }

  lemma {:induction false} WriteBytes(s: Bmc, r: seq<byte>, n: nat)
    requires n <= |r| && Receiving(s, 0, s.provision)
    ensures var t := Run(s, DataEvents(r[..n]));
            Receiving(t, n, s.provision) && Holds(t.dataIn, s.dataIn, r, n)
  {
    hide Step;
    if n > 0 {
      hide Holds;
      WriteBytes(s, r, n - 1);
      var t := Run(s, DataEvents(r[..n - 1]));
      assert DataEvents(r[..n]) == DataEvents(r[..n - 1]) + [Data(r[n - 1])];
      RunSnoc(s, DataEvents(r[..n - 1]), Data(r[n - 1]));
      StoreOneByte(t, r[n - 1], n - 1, s.provision);
      HoldsOneMore(t.dataIn, s.dataIn, r, n - 1);
    }
  }

  /** Right after the last byte: the packet in the buffer has been answered. */
  predicate Answered(t: Bmc, provision: Provision) {
    && t.Valid() && t.inIdx < MAX_KCS_PKT_SIZE
    && var reply := BuildResponse(t.dataIn, t.inIdx, provision);
    && Sending(t, reply.data, 1) && t.error == NoError && t.provision == reply.provision
  }

  /** The interrupt that takes the last byte answers the packet now in the buffer. */
  lemma AnswerRequest(t: Bmc, b: byte, n: nat, provision: Provision)
    requires Receiving(t, n, provision)
    ensures var u := Step(Step(t, Command(WRITE_END)), Data(b));
            && Answered(u, provision)
            && u.inIdx == (n + 1) % 0x1_0000 && u.dataIn == t.dataIn[n % 0x1_0000 := b]
  {
    hide BuildResponse;
    var e := Step(t, Command(WRITE_END));
    assert e == t.(regs := e.regs, phase := WriteEnd) && !e.regs.ibf;
    AnswerLastByte(e, b);
  }

  lemma AnswerLastByte(e: Bmc, b: byte)
    requires e.Valid() && e.phase == WriteEnd && e.error == NoError && e.inIdx < 0x1_0000 && e.outIdx == 0
    ensures var u := Step(e, Data(b));
            Answered(u, e.provision) && u.inIdx == (e.inIdx + 1) % 0x1_0000 && u.dataIn == e.dataIn[e.inIdx := b]
  {
    hide BuildResponse, KcsModel.ReadKcsCmd, StoreOrAbort;
    var u := Step(e, Data(b));
    var reply := BuildResponse(u.dataIn, u.inIdx, e.provision);
    assert u.dataOut[..|reply.data|] == reply.data;
  }

  lemma ReceivesAllButLast(s: Bmc, r: seq<byte>)
    requires s.Valid() && r != []
    ensures var t := Run(s, AllButLast(r));
            Receiving(t, |r| - 1, s.provision) && Holds(t.dataIn, s.dataIn, r, |r| - 1)
  {
    hide Holds;
    var start := [Command(WRITE_START)];
    assert start == [] + start;
    RunSnoc(s, [], Command(WRITE_START));
    RunConcat(s, start, DataEvents(r[..|r| - 1]));
    WriteBytes(Run(s, start), r, |r| - 1);
  }

  /** The state right after WRITE_END and the last byte, for requests of any length, from any state. */
  lemma WritePhase(s: Bmc, r: seq<byte>)
    requires s.Valid() && r != []
    ensures var t := Run(s, HostWrite(r));
            Answered(t, s.provision) && t.inIdx == |r| % 0x1_0000 && Holds(t.dataIn, s.dataIn, r, |r|)
  {
    hide Step, Holds;
    var n := |r| - 1;
    var es := AllButLast(r);
    ReceivesAllButLast(s, r);
    RunSnoc(s, es, Command(WRITE_END));
    RunSnoc(s, es + [Command(WRITE_END)], Data(r[n]));
    AnswerRequest(Run(s, es), r[n], n, s.provision);
    HoldsOneMore(Run(s, es).dataIn, s.dataIn, r, n);
  }

  /** The part of a request that survives the 16-bit index: what follows its last full 64 KiB. */
  function Tail(r: seq<byte>): seq<byte> {
    r[|r| - |r| % 0x1_0000..]
  }

  lemma HoldsTail(buffer: seq<byte>, was: seq<byte>, r: seq<byte>)
    requires |buffer| == |was| == MAX_KCS_PKT_SIZE
    requires Holds(buffer, was, r, |r|)
    ensures buffer[..|r| % 0x1_0000] == Tail(r)
  {
    var n := |r| % 0x1_0000;
    forall k | 0 <= k < n ensures buffer[k] == Tail(r)[k] {
      assert Latest(|r|, k) == |r| - n + k;
    }
  }

  /** The packet that was handed to the IPMI handler. */
  function Packet(t: Bmc): seq<byte>
    requires t.inIdx <= |t.dataIn|
  {
    t.dataIn[..t.inIdx]
  }

  /** The response in the output buffer. */
  function Response(t: Bmc): seq<byte>
    requires t.outLen <= |t.dataOut|
  {
    t.dataOut[..t.outLen]
  }

  /**
    The packet the handler sees is `Tail(r)`; it is the request sent exactly
    when that is shorter than 64 KiB. The length check against
    MAX_KCS_PKT_SIZE never sees the difference.
   */
  lemma RequestHeld(s: Bmc, r: seq<byte>)
    requires s.Valid() && r != []
    ensures Answered(Run(s, HostWrite(r)), s.provision)
    ensures Packet(Run(s, HostWrite(r))) == Tail(r)
    ensures Packet(Run(s, HostWrite(r))) == r <==> |r| < 0x1_0000
  {
    hide Step, Holds, BuildResponse;
    WritePhase(s, r);
    HoldsTail(Run(s, HostWrite(r)).dataIn, s.dataIn, r);
  }

  /**
    The response to a request of any length: for a held packet of two bytes or
    more it is the response to that packet; a shorter one is refused, as out of
    space on the BMC's own LUN.
   */
  lemma ResponseToAnyLength(s: Bmc, r: seq<byte>)
    requires s.Valid() && r != []
    ensures var t := Run(s, HostWrite(r));
            && Answered(t, s.provision)
            && var response := Response(t);
            if 2 <= |Tail(r)| then
              (response, t.provision) == AnswerInBytes(Tail(r), s.provision)
            else
              && t.provision == s.provision
              && response == [t.dataIn[0] + 4, t.dataIn[1], if t.dataIn[0] & 3 == 0 then 0xC4 else 0xC2]
  {
    hide Step;
    RequestHeld(s, r);
    var t := Run(s, HostWrite(r));
    assert |Tail(r)| == t.inIdx;
    if 2 <= |Tail(r)| {
      BuildResponseIsRespond(t.dataIn, Tail(r), s.provision);
    } else {
      ShortPacketRefused(t.dataIn, t.inIdx, s.provision);
    }
  }

  // ------------------------------------------------------------------ the read phase

  /** The response in the buffer, `k` of its bytes already put out. */
  predicate Sending(t: Bmc, response: seq<byte>, k: nat) {
    && t.Valid() && !t.regs.ibf && t.phase == Read && t.regs.state == ReadState
    && 1 <= k <= |response| <= 18 && t.outIdx == k && t.outLen == |response|
    && t.dataOut[..|response|] == response
    && t.regs.output == response[k - 1]
  }

  lemma ReadOneByte(t: Bmc, response: seq<byte>, k: nat)
    requires Sending(t, response, k)
    ensures var u := Step(t, Data(READ));
            && u.provision == t.provision && u.error == t.error
            && if k < |response| then Sending(u, response, k + 1)
               else !u.regs.ibf && u.phase == Idle && u.regs.state == IdleState && u.regs.output == ZERO_DATA
  {
    if k < |response| {
      assert t.dataOut[..|response|][k] == response[k];
    }
  }

  lemma {:induction false} ReadPhase(t: Bmc, response: seq<byte>, k: nat)
    requires Sending(t, response, 1) && k < |response|
    ensures Sending(Run(t, Reads(k)), response, k + 1)
    ensures Run(t, Reads(k)).provision == t.provision && Run(t, Reads(k)).error == t.error
  {
    hide Step;
    if k > 0 {
      ReadPhase(t, response, k - 1);
      assert Reads(k)[..k - 1] == Reads(k - 1);
      ReadOneByte(Run(t, Reads(k - 1)), response, k);
    }
  }

  /** As many READ codes as the response has bytes fetch all of it and end idle. */
  lemma ReadToEnd(t: Bmc, response: seq<byte>)
    requires Sending(t, response, 1)
    ensures var u := Run(t, Reads(|response|));
            && !u.regs.ibf && u.phase == Idle && u.regs.state == IdleState && u.regs.output == ZERO_DATA
            && u.provision == t.provision && u.error == t.error
  {
    hide Step;
    var len := |response|;
    ReadPhase(t, response, len - 1);
    assert Reads(len)[..len - 1] == Reads(len - 1);
    ReadOneByte(Run(t, Reads(len - 1)), response, len);
  }

  // ------------------------------------------------------------------ end to end

  /** The output bytes a host sees while the state bits say READ, taking at most `n`. */
  function Collected(t: Bmc, n: nat): seq<byte>
    requires t.Valid()
    decreases n
  {
    if n == 0 || t.regs.state != ReadState then []
    else [t.regs.output] + Collected(Step(t, Data(READ)), n - 1)
  }

  lemma {:induction false} CollectsRest(t: Bmc, response: seq<byte>, k: nat, n: nat)
    requires Sending(t, response, k) && n > |response| - k
    ensures Collected(t, n) == response[k - 1..]
    decreases |response| - k
  {
    hide Step;
    ReadOneByte(t, response, k);
    var u := Step(t, Data(READ));
    if k < |response| {
      CollectsRest(u, response, k + 1, n - 1);
      assert [response[k - 1]] + response[k..] == response[k - 1..];
    } else {
      assert Collected(u, n - 1) == [];
      assert response[k - 1..] == [response[k - 1]];
    }
  }

  /**
    End to end, from any state of the BMC: a request of 2 to 65535 bytes is held
    exactly, the host that reads while the state bits say READ collects exactly
    the response to it however long it is prepared to read, byte for byte what
    `AnswerInBytes` has, and after as many READ codes as the response has bytes
    the channel is idle again.
   */
  lemma ExchangeIsFaithful(s: Bmc, r: seq<byte>, n: nat)
    requires s.Valid() && 2 <= |r| < 0x1_0000
    requires n >= 18
    ensures var t := Run(s, HostWrite(r));
            var (bytes, after) := AnswerInBytes(r, s.provision);
            var u := Run(t, Reads(|bytes|));
            && Answered(t, s.provision) && Packet(t) == r
            && Collected(t, n) == bytes
            && u.phase == Idle && u.regs.state == IdleState && u.error == NoError && u.provision == after
  {
    hide Step, Run, Tail, Collected, AnswerInBytes;
    var t := Run(s, HostWrite(r));
    var (bytes, after) := AnswerInBytes(r, s.provision);
    WritePhase(s, r);
    RequestHeld(s, r);
    ResponseToAnyLength(s, r);
    assert Tail(r) == r;
    assert Response(t) == bytes;
    CollectsRest(t, bytes, 1, n);
    ReadToEnd(t, bytes);
  }

  // ------------------------------------------------------------------ sessions

  /** A request the 16-bit index can hold. */
  type Request = r: seq<byte> | 2 <= |r| < 0x1_0000 witness [0, 0]

  /** A session item: arbitrary host traffic, or a complete exchange. */
  datatype Item = Noise(events: seq<Event>) | Exchange(request: Request)

  function ItemEvents(item: Item, provision: Provision): seq<Event> {
    match item
    case Noise(es) => es
    case Exchange(r) => HostWrite(r) + Reads(|AnswerInBytes(r, provision).0|)
  }

  /** What the host gets out of a session, exchange by exchange. */
  function SessionResponses(s: Bmc, items: seq<Item>): seq<seq<byte>>
    requires s.Valid()
    decreases |items|
  {
    if items == [] then [] else
    var item := items[0];
    var next := Run(s, ItemEvents(item, s.provision));
    (if item.Exchange? then [Collected(Run(s, HostWrite(item.request)), 18)] else [])
    + SessionResponses(next, items[1..])
  }

  /** The traffic between exchanges completes no request of its own. */
  predicate QuietBetween(s: Bmc, items: seq<Item>)
    requires s.Valid()
    decreases |items|
  {
    items == [] ||
    ((items[0].Noise? ==> NoRequestHandled(s, items[0].events))
     && QuietBetween(Run(s, ItemEvents(items[0], s.provision)), items[1..]))
  }

  /** The command server without any transport: one response per request. */
  function Serve(items: seq<Item>, provision: Provision): seq<seq<byte>> {
    if items == [] then [] else
    match items[0]
    case Noise(_) => Serve(items[1..], provision)
    case Exchange(r) =>
      var (bytes, after) := AnswerInBytes(r, provision);
      [bytes] + Serve(items[1..], after)
  }

  lemma {:induction false} NoiseKeepsProvision(s: Bmc, es: seq<Event>)
    requires Visible(s) && NoRequestHandled(s, es)
    ensures Visible(Run(s, es)) && Run(s, es).provision == s.provision
  {
    if es != [] {
      var n := |es| - 1;
      forall i | 0 <= i < n ensures !HandlesRequest(Run(s, es[..n][..i]), es[..n][i]) {
        assert es[..n][..i] == es[..i];
      }
      NoiseKeepsProvision(s, es[..n]);
      VisibleStep(Run(s, es[..n]), es[n]);
      OnlyHandledRequestsHaveEffects(Run(s, es[..n]), es[n]);
    }
  }

  lemma {:induction false} VisibleRun(s: Bmc, es: seq<Event>)
    requires Visible(s)
    ensures Visible(Run(s, es))
  {
    if es != [] {
      VisibleRun(s, es[..|es| - 1]);
      VisibleStep(Run(s, es[..|es| - 1]), es[|es| - 1]);
    }
  }

  /**
    Refinement: over a whole session of exchanges, with any host traffic in
    between that completes no request of its own, the channel answers exactly
    as the transport-free command server does, saved environment included.
   */
  lemma {:induction false} SessionRefinesServer(s: Bmc, items: seq<Item>)
    requires Visible(s) && QuietBetween(s, items)
    ensures SessionResponses(s, items) == Serve(items, s.provision)
    decreases |items|
  {
    hide Step, AnswerInBytes;
    if items != [] {
      var item := items[0];
      var es := ItemEvents(item, s.provision);
      var next := Run(s, es);
      VisibleRun(s, es);
      match item {
        case Noise(_) =>
          NoiseKeepsProvision(s, es);
        case Exchange(r) =>
          ExchangeIsFaithful(s, r, 18);
          RunConcat(s, HostWrite(r), Reads(|AnswerInBytes(r, s.provision).0|));
      }
      SessionRefinesServer(next, items[1..]);
    }
  }
}
