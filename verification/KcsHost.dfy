/**
  A host that drives the channel by the transfer flow of section 9.15 of the
  IPMI 2.0 specification: it checks the state bits after every byte, takes the
  output byte whenever OBF is set, and reads until the state bits say IDLE. The
  interrupt is taken at once, so waiting for IBF to clear is a check.
 */
module KcsHost {
  import opened Options
  import opened IpmiHandler
  import opened KcsModel
  import opened KcsChannel
  import opened KcsTransfer

  /** Taking the output byte only clears OBF. */
  lemma CollectKeeps(s: Bmc)
    requires s.Valid() && !s.regs.ibf
    ensures Step(s, Collect) == s.(regs := s.regs.(obf := false))
  {
  }

  method ClearObf(ch: Channel)
    requires ch.Valid() && !ch.View().regs.ibf
    modifies ch, ch.dataIn, ch.dataOut
    ensures ch.Valid() && ch.View() == old(ch.View()).(regs := old(ch.View()).regs.(obf := false))
  {
    CollectKeeps(ch.View());
    ch.HostAccess(Collect);
  }

  /** IBF is clear and the state bits say WRITE. */
  method Writing(ch: Channel) returns (ok: bool)
    ensures ok == (!ch.regs.ibf && ch.regs.state == WriteState)
  {
    ok := !ch.regs.ibf && ch.regs.state == WriteState;
  }

  /** WRITE_START and all bytes but the last, for as long as the state bits say WRITE. */
  method WriteAllButLast(ch: Channel, request: seq<byte>) returns (ok: bool)
    requires ch.Valid() && !ch.regs.ibf && request != []
    modifies ch, ch.dataIn, ch.dataOut
    ensures ch.Valid() && ok
    ensures Receiving(ch.View(), |request| - 1, old(ch.provision))
    ensures Holds(ch.View().dataIn, old(ch.View()).dataIn, request, |request| - 1)
  {
    ClearObf(ch);
    ch.HostAccess(Command(WRITE_START));
    ok := Writing(ch);
    var i := 0;
    while ok && i < |request| - 1
      invariant i <= |request| - 1
      invariant ch.Valid() && ok
      invariant Receiving(ch.View(), i, old(ch.provision))
      invariant Holds(ch.View().dataIn, old(ch.View()).dataIn, request, i)
    {
      hide Step, Holds;
      ClearObf(ch);
      ghost var t := ch.View();
      StoreOneByte(t, request[i], i, old(ch.provision));
      HoldsOneMore(t.dataIn, old(ch.View()).dataIn, request, i);
      ch.HostAccess(Data(request[i]));
      ok := Writing(ch);
      i := i + 1;
    }
  }

  /** WRITE_END and the last byte, leaving the packet answered. */
  method WriteLast(ch: Channel, request: seq<byte>, ghost was: seq<byte>) returns (ok: bool)
    requires ch.Valid() && request != [] && |was| == MAX_KCS_PKT_SIZE
    requires Receiving(ch.View(), |request| - 1, ch.provision)
    requires Holds(ch.View().dataIn, was, request, |request| - 1)
    modifies ch, ch.dataIn, ch.dataOut
    ensures ch.Valid() && ok
    ensures Answered(ch.View(), old(ch.provision))
    ensures ch.inIdx == |request| % 0x1_0000
    ensures Holds(ch.View().dataIn, was, request, |request|)
  {
    var n := |request| - 1;
    ClearObf(ch);
    ghost var t := ch.View();
    AnswerRequest(t, request[n], n, t.provision);
    HoldsOneMore(t.dataIn, was, request, n);
    EndKeepsWriting(t, n, t.provision);
    ch.HostAccess(Command(WRITE_END));
    ok := Writing(ch);
    CollectThenData(ch.View(), request[n]);
    ClearObf(ch);
    ch.HostAccess(Data(request[n]));
  }

  lemma EndKeepsWriting(t: Bmc, n: nat, provision: Provision)
    requires Receiving(t, n, provision)
    ensures var u := Step(t, Command(WRITE_END)); !u.regs.ibf && u.regs.state == WriteState
  {
  }

  /** Taking the output byte before the last write does not change how it is answered. */
  lemma CollectThenData(s: Bmc, b: byte)
    requires s.Valid() && !s.regs.ibf && s.phase == WriteEnd
    ensures Step(s.(regs := s.regs.(obf := false)), Data(b)) == Step(s, Data(b))
  {
  }

  /** Reads while the state bits say READ, then takes the closing dummy byte. */
  method ReadResponse(ch: Channel, ghost expected: seq<byte>) returns (ok: bool, response: seq<byte>)
    requires ch.Valid() && Sending(ch.View(), expected, 1)
    modifies ch, ch.dataIn, ch.dataOut
    ensures ch.Valid() && ok && response == expected
    ensures ch.phase == Idle && ch.regs.state == IdleState && !ch.regs.ibf && !ch.regs.obf
    ensures ch.provision == old(ch.provision) && ch.error == old(ch.error)
  {
    response := [];
    ghost var k := 1;
    while ch.regs.state == ReadState
      invariant ch.Valid() && !ch.regs.ibf
      invariant ch.provision == old(ch.provision) && ch.error == old(ch.error)
      invariant 1 <= k <= |expected| + 1 && response == expected[..k - 1]
      invariant if k <= |expected| then Sending(ch.View(), expected, k)
                else ch.phase == Idle && ch.regs.state == IdleState && ch.regs.output == ZERO_DATA
      decreases |expected| + 1 - k
    {
      response := response + [ch.regs.output];
      ClearObf(ch);
      ReadOneByte(ch.View(), expected, k);
      ch.HostAccess(Data(READ));
      k := k + 1;
    }
    ok := ch.regs.state == IdleState;
    ClearObf(ch);
  }

  lemma ShortTail(r: seq<byte>)
    ensures |Tail(r)| == |r| % 0x1_0000
    ensures |r| < 0x1_0000 ==> Tail(r) == r
  {
  }

  /**
    One complete exchange, from any state in which no interrupt is pending: the
    host never sees an error, terminates, and leaves the channel idle. For a
    request of 2 to 65535 bytes it returns exactly the bytes of the answer.
   */
  method Transact(ch: Channel, request: seq<byte>) returns (ok: bool, response: seq<byte>)
    requires ch.Valid() && !ch.regs.ibf && request != []
    modifies ch, ch.dataIn, ch.dataOut
    ensures ch.Valid() && ok
    ensures ch.phase == Idle && ch.regs.state == IdleState && !ch.regs.ibf && ch.error == NoError
    ensures 2 <= |Tail(request)| ==>
              (response, ch.provision) == AnswerInBytes(Tail(request), old(ch.provision))
    ensures 2 <= |request| < 0x1_0000 ==>
              (response, ch.provision) == AnswerInBytes(request, old(ch.provision))
  {
    hide Holds, AnswerInBytes, Tail;
    ghost var was, env := ch.View().dataIn, ch.provision;
    ShortTail(request);
    ok := WriteAllButLast(ch, request);
    if ok {
      ok := WriteLast(ch, request, was);
    }
    ghost var t := ch.View();
    HoldsTail(t.dataIn, was, request);
    if 2 <= |Tail(request)| {
      BuildResponseIsRespond(t.dataIn, Tail(request), env);
    }
    if ok {
      ok, response := ReadResponse(ch, BuildResponse(t.dataIn, t.inIdx, env).data);
    }
  }
}
