/** Safety of the KCS state machine over every run, whatever the host writes. */
module KcsProperties {
  import opened Options
  import opened IpmiHandler
  import opened KcsModel

  // ------------------------------------------------------------------ phases and state bits

  /** The phase fixes the visible state bits; READ_WAIT is never visible. */
  predicate PhaseFixesState(s: Bmc) {
    match s.phase
    case Idle => s.regs.state == IdleState
    case WriteStart => s.regs.state == WriteState
    case WriteData => s.regs.state == WriteState
    case WriteEnd => s.regs.state == WriteState
    case ReadWait => false
    case Read => s.regs.state == ReadState || s.regs.state == ErrorState
    case Abort1 => s.regs.state == WriteState
    case Abort2 => s.regs.state == ReadState
    case Error => s.regs.state == ErrorState
  }

  predicate Visible(s: Bmc) {
    && s.Valid() && s.U16()
    && PhaseFixesState(s)
    && !s.regs.ibf && !s.readReqDone
    && (s.error != NoError ==> s.phase in {Idle, Abort1, Abort2, Error})
    && s.error != LengthError
  }

  lemma VisibleCommandStep(s: Bmc, b: byte)
    requires Visible(s)
    ensures var t := Step(s, Command(b)); Visible(t) && t.regs.obf
  {
    hide KcsModel.ReadKcsData;
  }

  lemma VisibleAnswer(s: Bmc, b: byte)
    requires Visible(s) && s.phase == WriteEnd
    ensures var t := Step(s, Data(b)); Visible(t) && t.regs.obf
  {
    hide KcsModel.ReadKcsCmd, StoreOrAbort, BuildResponse, Overwrite;
  }

  lemma VisibleTransfer(s: Bmc, b: byte)
    requires Visible(s) && s.phase in {WriteStart, WriteData, Read}
    ensures var t := Step(s, Data(b)); Visible(t) && t.regs.obf
  {
    hide KcsModel.ReadKcsCmd, ProcessRequest;
  }

  lemma VisibleAbort(s: Bmc, b: byte)
    requires Visible(s) && s.phase in {Idle, Abort1, Abort2, Error}
    ensures var t := Step(s, Data(b)); Visible(t) && t.regs.obf
  {
    hide KcsModel.ReadKcsCmd, ProcessRequest, StoreOrAbort;
  }

  lemma VisibleDataStep(s: Bmc, b: byte)
    requires Visible(s)
    ensures var t := Step(s, Data(b)); Visible(t) && t.regs.obf
  {
    hide Step;
    match s.phase {
      case WriteEnd => VisibleAnswer(s, b);
      case WriteStart => VisibleTransfer(s, b);
      case WriteData => VisibleTransfer(s, b);
      case Read => VisibleTransfer(s, b);
      case _ => VisibleAbort(s, b);
    }
  }

  lemma VisibleStep(s: Bmc, e: Event)
    requires Visible(s)
    ensures Visible(Step(s, e))
    ensures !e.Collect? ==> Step(s, e).regs.obf
  {
    match e {
      case Command(b) =>
        hide Step;
        VisibleCommandStep(s, b);
      case Data(b) =>
        hide Step;
        VisibleDataStep(s, b);
      case Collect =>
    }
  }

  /**
    Between interrupts of every run from `kcs_init`: the input register is
    consumed, the phase fixes the state bits, the packet fields keep their
    width and the length error is never raised; and every interrupt writes the
    output register.
   */
  lemma {:induction false} VisibleAlways(s: Bmc, es: seq<Event>)
    requires Initial(s)
    ensures Visible(Run(s, es))
    ensures es != [] && !es[|es| - 1].Collect? ==> Run(s, es).regs.obf
  {
    hide Step;
    if es != [] {
      VisibleAlways(s, es[..|es| - 1]);
      VisibleStep(Run(s, es[..|es| - 1]), es[|es| - 1]);
    }
  }

  /** Where the driver decides on an error only after it has taken the input byte. */
  predicate LateError(s: Bmc, e: Event) {
    match e
    case Command(b) => IllegalControlCode(b) || (b == WRITE_END && s.error != NoError)
    case Data(b) => s.phase == Read && b != READ && (s.outIdx == s.outLen || s.regs.state != ErrorState)
    case Collect => false
  }

  /**
    A host that polls IBF never reads stale state bits, except exactly in these
    error cases: there the bits change once more after IBF has gone clear.
   */
  lemma StateSettledExactly(s: Bmc, e: Event)
    requires Visible(s) && !e.Collect?
    ensures Step(s, e).regs.seen == Step(s, e).regs.state <==> !LateError(s, e)
  {
    hide Step;
    match e {
      case Command(b) => SettledAfterCommand(s, b);
      case Data(b) => SettledAfterData(s, b);
    }
  }

  lemma SettledAfterCommand(s: Bmc, b: byte)
    requires Visible(s)
    ensures Step(s, Command(b)).regs.seen == Step(s, Command(b)).regs.state <==> !LateError(s, Command(b))
  {
    hide KcsModel.ReadKcsData;
  }

  lemma SettledAfterData(s: Bmc, b: byte)
    requires Visible(s)
    ensures Step(s, Data(b)).regs.seen == Step(s, Data(b)).regs.state <==> !LateError(s, Data(b))
  {
    if s.phase in {WriteStart, WriteData, WriteEnd} {
      SettledWhileWriting(s, b);
    } else {
      hide KcsModel.ReadKcsCmd, ProcessRequest, StoreOrAbort;
    }
  }

  lemma SettledWhileWriting(s: Bmc, b: byte)
    requires Visible(s) && s.phase in {WriteStart, WriteData, WriteEnd}
    ensures Step(s, Data(b)).regs.seen == Step(s, Data(b)).regs.state
  {
    hide KcsModel.ReadKcsCmd, BuildResponse, Overwrite;
  }

  // ------------------------------------------------------------------ errors and aborts

  /** The step that hands a request to the IPMI handler. */
  predicate HandlesRequest(s: Bmc, e: Event) {
    e.Data? && s.phase == WriteEnd
  }

  predicate NoRequestHandled(s: Bmc, es: seq<Event>)
    requires s.Valid()
  {
    forall i | 0 <= i < |es| :: !HandlesRequest(Run(s, es[..i]), es[i])
  }

  predicate IllegalControlCode(b: byte) {
    b !in {0x60, 0x61, 0x62}
  }

  /** The environment changes in no other step, and neither does the response. */
  lemma OnlyHandledRequestsHaveEffects(s: Bmc, e: Event)
    requires Visible(s)
    ensures !HandlesRequest(s, e) ==> Step(s, e).provision == s.provision && Step(s, e).dataOut == s.dataOut
    ensures HandlesRequest(s, e) ==> Step(s, e).phase == Read
  {
    hide BuildResponse;
  }

  lemma ErrorStep(s: Bmc, e: Event)
    requires Visible(s) && s.error != NoError && e != Command(WRITE_START)
    ensures Step(s, e).error != NoError
  {
    hide BuildResponse, Overwrite;
  }

  lemma {:induction false} ErrorPersists(s: Bmc, es: seq<Event>, i: nat)
    requires Visible(s) && s.error != NoError
    requires Command(WRITE_START) !in es
    requires i <= |es|
    ensures Visible(Run(s, es[..i])) && Run(s, es[..i]).error != NoError
  {
    hide Step, HandlesRequest;
    if i == 0 {
      assert es[..0] == [];
    } else {
      ErrorPersists(s, es, i - 1);
      assert es[..i][..i - 1] == es[..i - 1];
      VisibleStep(Run(s, es[..i - 1]), es[i - 1]);
      ErrorStep(Run(s, es[..i - 1]), es[i - 1]);
    }
  }

  /**
    After GET_STATUS/ABORT or an illegal control code, no request reaches the
    IPMI handler before the next WRITE_START, whatever else the host does.
   */
  lemma ErrorBlocksRequests(s: Bmc, b: byte, es: seq<Event>)
    requires Visible(s)
    requires b == GET_STATUS_ABORT || IllegalControlCode(b)
    requires Command(WRITE_START) !in es
    ensures NoRequestHandled(Step(s, Command(b)), es)
  {
    hide Run;
    var t := Step(s, Command(b));
    VisibleStep(s, Command(b));
    forall i | 0 <= i < |es| ensures !HandlesRequest(Run(t, es[..i]), es[i]) {
      ErrorPersists(t, es, i);
    }
  }

  /** The step puts out a byte of the response or the abort code. */
  predicate PutsOutData(s: Bmc, e: Event) {
    e.Data? && (s.phase in {WriteEnd, Abort1} || (s.phase == Read && e.b == 0x68 && s.outIdx != s.outLen))
  }

  /** Every other byte the host gets is zero. */
  lemma FillerIsZero(s: Bmc, e: Event)
    requires Visible(s) && !e.Collect? && !PutsOutData(s, e)
    ensures Step(s, e).regs.output == 0x00
  {
    hide BuildResponse, Overwrite;
  }

  /** From every state, GET_STATUS/ABORT (0x60) and two data bytes fetch the error code 0x01 and end idle. */
  lemma AbortHandshake(s: Bmc, x: byte, y: byte)
    requires s.Valid()
    ensures var a := Step(s, Command(0x60));
            var b := Step(a, Data(x));
            var c := Step(b, Data(y));
            && a.regs.state == WriteState && a.regs.output == 0x00
            && b.regs.state == ReadState && b.regs.output == 0x01
            && c.regs.state == IdleState && c.regs.output == 0x00 && c.phase == Idle
  {
  }

  /**
    In every phase, WRITE_END and one more byte reach the IPMI handler exactly
    when no error is latched, whatever the state bits show.
   */
  lemma EndReachesHandlerExactly(s: Bmc, y: byte)
    requires Visible(s)
    ensures HandlesRequest(Step(s, Command(WRITE_END)), Data(y)) <==> s.error == NoError
  {
    hide KcsModel.ReadKcsData;
  }

  /** A command shows ERROR exactly where its code is illegal, or WRITE_END comes with an error latched. */
  lemma CommandShowsErrorExactly(s: Bmc, b: byte)
    requires Visible(s)
    ensures Step(s, Command(b)).regs.state == ErrorState
            <==> b !in {0x60, 0x61, 0x62} || (b == 0x62 && s.error != NoError)
  {
    hide KcsModel.ReadKcsData;
  }

  /** A data byte latches no error and releases none. */
  lemma DataKeepsError(s: Bmc, x: byte)
    requires Visible(s)
    ensures Step(s, Data(x)).error == s.error
  {
    hide KcsModel.ReadKcsCmd, BuildResponse, Overwrite;
  }

  /** The state bits show ERROR after a data byte exactly where it was out of place. */
  predicate OutOfPlace(s: Bmc, x: byte) {
    || s.phase in {Idle, Error}
    || (s.phase == Read && (x != READ || (s.regs.state == ErrorState && s.outIdx != s.outLen)))
  }

  lemma StrayDataShowsError(s: Bmc, x: byte)
    requires Visible(s)
    ensures Step(s, Data(x)).regs.state == ErrorState <==> OutOfPlace(s, x)
  {
    hide KcsModel.ReadKcsCmd, BuildResponse, Overwrite;
  }

  /**
    The error latch is weaker than the state bits: in any phase, a data byte out
    of place shows ERROR, yet WRITE_END and one more byte are then still handled
    as a request, unless an abort or an illegal control code came before.
   */
  lemma StrayDataStillReachesHandler(s: Bmc, x: byte, y: byte)
    requires Visible(s)
    ensures Run(s, [Data(x)]).regs.state == ErrorState <==> OutOfPlace(s, x)
    ensures HandlesRequest(Run(s, [Data(x), Command(WRITE_END)]), Data(y)) <==> s.error == NoError
  {
    hide Step, HandlesRequest;
    var es := [Data(x), Command(WRITE_END)];
    assert es[..1] == [Data(x)] && [Data(x)][..0] == [];
    StrayDataShowsError(s, x);
    DataKeepsError(s, x);
    VisibleStep(s, Data(x));
    EndReachesHandlerExactly(Step(s, Data(x)), y);
  }

  /**
    What such a request is: the forced abort has emptied the packet, so it is
    the one byte written last, and the response refuses it.
   */
  lemma StrayRequestIsRefused(s: Bmc, x: byte, y: byte)
    requires Visible(s) && s.phase in {Idle, Error} && s.error == NoError
    ensures var u := Step(Step(Step(s, Data(x)), Command(0x62)), Data(y));
            && u.phase == Read && u.inIdx == 1 && u.outLen == 3
            && u.dataOut[..3] == [y + 4, s.dataIn[1], if y & 3 == 0 then 0xC4 else 0xC2]
  {
    hide BuildResponse;
    var t := Step(Step(s, Data(x)), Command(0x62));
    assert t.phase == WriteEnd && t.inIdx == 0 && t.dataIn == s.dataIn && t.provision == s.provision;
    ShortPacketRefused(s.dataIn[0 := y], 1, s.provision);
  }

  /** A wrong read code shows ERROR with a zero byte, and the next READ goes on where the response was left. */
  lemma BadReadCodeResumes(s: Bmc, b: byte)
    requires Visible(s) && s.phase == Read && b != 0x68
    ensures var t := Step(s, Data(b));
            && t.phase == Read && t.regs.state == ErrorState && t.regs.output == 0x00
            && t.outIdx == s.outIdx && t.outLen == s.outLen && t.dataOut == s.dataOut && t.provision == s.provision
            && var u, v := Step(t, Data(0x68)), Step(s, Data(0x68));
               u.phase == v.phase && u.regs.output == v.regs.output && u.outIdx == v.outIdx
  {
    hide KcsModel.ReadKcsCmd, ProcessRequest, StoreOrAbort;
  }

  // ------------------------------------------------------------------ the read phase

  predicate ReadWindow(s: Bmc) {
    s.phase == Read ==> 1 <= s.outIdx <= s.outLen && 3 <= s.outLen <= 18
  }

  /**
    The response bytes put out since the request was handled: the first one by
    the step that handled it, one more by every accepted READ that stays in the
    read phase. Rejected read codes put out a filler byte that is not counted.
   */
  function Sent(s: Bmc, es: seq<Event>): seq<byte>
    requires s.Valid()
  {
    if es == [] then [] else
    var before, e := es[..|es| - 1], es[|es| - 1];
    SentAfter(Run(s, before), e, Sent(s, before))
  }

  function SentAfter(s: Bmc, e: Event, sent: seq<byte>): seq<byte>
    requires s.Valid()
  {
    var u := Step(s, e);
    if HandlesRequest(s, e) then [u.regs.output]
    else if s.phase == Read && e == Data(READ) && u.phase == Read then sent + [u.regs.output]
    else sent
  }

  /** In the read phase the cursor is inside the response and the bytes sent are the response up to it. */
  predicate Faithful(s: Bmc, es: seq<Event>)
    requires s.Valid()
  {
    var t := Run(s, es);
    t.phase == Read ==> ReadWindow(t) && Sent(s, es) == t.dataOut[..t.outIdx]
  }

  predicate AlwaysFaithful(s: Bmc, es: seq<Event>)
    requires s.Valid()
  {
    forall n | 0 <= n <= |es| :: Faithful(s, es[..n])
  }

  /** Every request is handled with the cursor at the start. */
  predicate CursorReset(s: Bmc, es: seq<Event>)
    requires s.Valid()
  {
    forall i | 0 <= i < |es| && HandlesRequest(Run(s, es[..i]), es[i]) :: Run(s, es[..i]).outIdx == 0
  }

  /** A request has been handled since the last WRITE_START. */
  predicate Served(s: Bmc, es: seq<Event>)
    requires s.Valid()
  {
    es != [] &&
    var before, e := es[..|es| - 1], es[|es| - 1];
    ServedAfter(Run(s, before), e, Served(s, before))
  }

  predicate ServedAfter(s: Bmc, e: Event, served: bool) {
    HandlesRequest(s, e) || (served && e != Command(WRITE_START))
  }

  /** Between any two requests handled there is a WRITE_START. */
  predicate OneRequestPerStart(s: Bmc, es: seq<Event>)
    requires s.Valid()
  {
    forall i | 0 <= i < |es| && HandlesRequest(Run(s, es[..i]), es[i]) :: !Served(s, es[..i])
  }

  /** What holds of every run for as long as requests are handled with the cursor at the start. */
  predicate CursorInv(s: Bmc, served: bool, sent: seq<byte>)
    requires s.Valid()
  {
    && s.outIdx <= s.outLen && (s.outIdx != 0 <==> served) && (served ==> 3 <= s.outLen <= 18)
    && (s.phase == Read ==> served && sent == s.dataOut[..s.outIdx])
  }

  lemma CursorStepHandled(s: Bmc, b: byte)
    requires Visible(s) && s.phase == WriteEnd
    ensures var u := Step(s, Data(b));
            && u.phase == Read && u.outIdx == Bump(s.outIdx) && 3 <= u.outLen <= 18
            && u.regs.output == u.dataOut[s.outIdx]
  {
    hide BuildResponse, Overwrite;
  }

  lemma CursorStepOther(s: Bmc, e: Event, served: bool, sent: seq<byte>)
    requires Visible(s) && CursorInv(s, served, sent) && !HandlesRequest(s, e)
    ensures CursorInv(Step(s, e), ServedAfter(s, e, served), SentAfter(s, e, sent))
  {
    hide BuildResponse, Overwrite;
    var u := Step(s, e);
    if u.phase == Read {
      assert u.dataOut == s.dataOut;
    }
  }

  lemma CursorStep(s: Bmc, e: Event, served: bool, sent: seq<byte>)
    requires Visible(s) && CursorInv(s, served, sent) && (HandlesRequest(s, e) ==> s.outIdx == 0)
    ensures CursorInv(Step(s, e), ServedAfter(s, e, served), SentAfter(s, e, sent))
  {
    hide Step;
    if HandlesRequest(s, e) {
      CursorStepHandled(s, e.b);
      var u := Step(s, e);
      assert u.dataOut[..1] == [u.regs.output];
    } else {
      CursorStepOther(s, e, served, sent);
    }
  }

  lemma {:induction false} CursorInvHolds(s: Bmc, es: seq<Event>)
    requires Initial(s) && (CursorReset(s, es) || OneRequestPerStart(s, es))
    ensures CursorInv(Run(s, es), Served(s, es), Sent(s, es))
  {
    hide Step, HandlesRequest, ServedAfter, SentAfter;
    if es != [] {
      var n := |es| - 1;
      var before, e := es[..n], es[n];
      assert forall i | 0 <= i < n :: before[..i] == es[..i] && before[i] == es[i];
      CursorInvHolds(s, before);
      VisibleAlways(s, before);
      CursorStep(Run(s, before), e, Served(s, before), Sent(s, before));
    }
  }

  /**
    A request handled with the cursor at `k` is answered from byte `k` of the
    response on, so what the host gets is the response exactly when `k` is zero.
   */
  lemma AnswerFaithfulExactly(s: Bmc, b: byte)
    requires Visible(s) && s.phase == WriteEnd
    ensures var u := Step(s, Data(b));
            && u.phase == Read && u.regs.output == u.dataOut[s.outIdx]
            && (ReadWindow(u) && [u.regs.output] == u.dataOut[..u.outIdx] <==> s.outIdx == 0)
  {
    hide Step;
    CursorStepHandled(s, b);
    var u := Step(s, Data(b));
    if s.outIdx == 0 {
      assert u.dataOut[..1] == [u.regs.output];
    } else {
      assert |u.dataOut[..u.outIdx]| != 1 || u.outIdx == 0;
    }
  }

  lemma PrefixOf<T>(s: seq<T>, n: nat, i: nat)
    requires i <= n <= |s|
    ensures s[..n][..i] == s[..i] && (i < n ==> s[..n][i] == s[i])
  {
  }

  lemma PrefixReset(s: Bmc, es: seq<Event>, n: nat)
    requires s.Valid() && n <= |es|
    ensures CursorReset(s, es) ==> CursorReset(s, es[..n])
    ensures OneRequestPerStart(s, es) ==> OneRequestPerStart(s, es[..n])
  {
    hide Run, HandlesRequest, Served;
    forall i | 0 <= i < n ensures es[..n][..i] == es[..i] && es[..n][i] == es[i] {
      PrefixOf(es, n, i);
    }
  }

  /**
    Over every run from start-up, whatever the host writes: throughout the read
    phase the cursor is inside the response and the bytes sent are exactly the
    response up to the cursor, if and only if every request is handled with the
    cursor at the start; and that is so if and only if the host never has two
    requests handled without a WRITE_START between them.
   */
  lemma ReadPhaseFaithfulExactly(s: Bmc, es: seq<Event>)
    requires Initial(s)
    ensures AlwaysFaithful(s, es) <==> CursorReset(s, es)
    ensures CursorReset(s, es) <==> OneRequestPerStart(s, es)
  {
    hide Run, HandlesRequest, Served, Sent, CursorReset, OneRequestPerStart;
    if CursorReset(s, es) || OneRequestPerStart(s, es) {
      forall n: nat | n <= |es| ensures CursorInvAt(s, es, n) {
        PrefixReset(s, es, n);
        CursorInvHolds(s, es[..n]);
      }
      BothConditions(s, es);
      forall n | 0 <= n <= |es| ensures Faithful(s, es[..n]) {
        assert CursorInvAt(s, es, n);
      }
    }
    if AlwaysFaithful(s, es) {
      FaithfulResets(s, es);
    }
  }

  /** Every prefix of the run keeps the cursor rules. */
  predicate CursorInvThroughout(s: Bmc, es: seq<Event>)
    requires s.Valid()
  {
    forall n: nat | n <= |es| :: CursorInvAt(s, es, n)
  }

  predicate CursorInvAt(s: Bmc, es: seq<Event>, n: nat)
    requires s.Valid() && n <= |es|
  {
    CursorInv(Run(s, es[..n]), Served(s, es[..n]), Sent(s, es[..n]))
  }

  lemma BothConditions(s: Bmc, es: seq<Event>)
    requires s.Valid() && CursorInvThroughout(s, es)
    ensures CursorReset(s, es) <==> OneRequestPerStart(s, es)
  {
    hide Run, HandlesRequest, Served, Sent, CursorInv, Step;
    if CursorReset(s, es) {
      forall i | 0 <= i < |es| && HandlesRequest(Run(s, es[..i]), es[i]) ensures !Served(s, es[..i]) {
        assert CursorInvAt(s, es, i);
        SameCondition(Run(s, es[..i]), Served(s, es[..i]), Sent(s, es[..i]));
      }
    }
    if OneRequestPerStart(s, es) {
      forall i | 0 <= i < |es| && HandlesRequest(Run(s, es[..i]), es[i]) ensures Run(s, es[..i]).outIdx == 0 {
        assert CursorInvAt(s, es, i);
        SameCondition(Run(s, es[..i]), Served(s, es[..i]), Sent(s, es[..i]));
      }
    }
  }

  lemma SameCondition(s: Bmc, served: bool, sent: seq<byte>)
    requires s.Valid() && CursorInv(s, served, sent)
    ensures s.outIdx == 0 <==> !served
  {
  }

  lemma FaithfulResets(s: Bmc, es: seq<Event>)
    requires Initial(s) && AlwaysFaithful(s, es)
    ensures CursorReset(s, es)
  {
    hide Step;
    forall i | 0 <= i < |es| && HandlesRequest(Run(s, es[..i]), es[i]) ensures Run(s, es[..i]).outIdx == 0 {
      PrefixOf(es, i + 1, i);
      VisibleAlways(s, es[..i]);
      AnswerFaithfulExactly(Run(s, es[..i]), es[i].b);
      assert Faithful(s, es[..i + 1]);
    }
  }

  // ------------------------------------------------------------------ a host that keeps to write transfers

  /** The host sends WRITE_END only inside a write transfer. */
  predicate Disciplined(s: Bmc, es: seq<Event>)
    requires s.Valid()
  {
    forall i | 0 <= i < |es| && es[i] == Command(WRITE_END) ::
      Run(s, es[..i]).phase in {WriteStart, WriteData, WriteEnd}
  }

  predicate FreshWhileWriting(s: Bmc) {
    s.phase in {WriteStart, WriteData, WriteEnd} ==> s.outIdx == 0
  }

  lemma FreshStep(s: Bmc, e: Event)
    requires Visible(s) && FreshWhileWriting(s)
    requires e == Command(WRITE_END) ==> s.phase in {WriteStart, WriteData, WriteEnd}
    ensures FreshWhileWriting(Step(s, e))
  {
    hide BuildResponse, Overwrite;
  }

  lemma {:induction false} DisciplinedIsFresh(s: Bmc, es: seq<Event>, n: nat)
    requires Initial(s) && Disciplined(s, es) && n <= |es|
    ensures FreshWhileWriting(Run(s, es[..n]))
  {
    hide Step;
    if n > 0 {
      DisciplinedIsFresh(s, es, n - 1);
      VisibleAlways(s, es[..n - 1]);
      PrefixOf(es, n, n - 1);
      FreshStep(Run(s, es[..n - 1]), es[n - 1]);
    }
  }

  /**
    A host that sends WRITE_END only inside a write transfer meets the
    condition, so at every moment of the read phase the cursor is inside the
    response and the bytes sent are exactly the response up to the cursor,
    across aborts, bad read codes and restarts.
   */
  lemma ReadPhaseSendsResponse(s: Bmc, es: seq<Event>)
    requires Initial(s)
    requires Disciplined(s, es)
    ensures AlwaysFaithful(s, es)
    ensures var t := Run(s, es);
            && ReadWindow(t) && FreshWhileWriting(t)
            && (t.phase == Read ==> Sent(s, es) == t.dataOut[..t.outIdx])
  {
    hide Run, Sent;
    forall i | 0 <= i < |es| && HandlesRequest(Run(s, es[..i]), es[i]) ensures Run(s, es[..i]).outIdx == 0 {
      DisciplinedIsFresh(s, es, i);
    }
    ReadPhaseFaithfulExactly(s, es);
    assert es[..|es|] == es;
    assert Faithful(s, es[..|es|]);
    DisciplinedIsFresh(s, es, |es|);
  }

  /** A complete exchange of the two-byte request `a`, `b`, from the host's point of view. */
  function ShortExchange(a: byte, b: byte): seq<Event> {
    [Command(WRITE_START), Data(a), Command(WRITE_END), Data(b), Data(READ), Data(READ), Data(READ)]
  }

  lemma RunSnoc(s: Bmc, es: seq<Event>, e: Event)
    requires s.Valid()
    ensures Run(s, es + [e]) == Step(Run(s, es), e)
  {
    assert (es + [e])[..|es|] == es;
  }

  lemma AfterShortWrite(s: Bmc)
    requires Initial(s)
    ensures var t := Run(s, ShortExchange(0x18, 0x02)[..4]);
            && t.phase == Read && t.error == NoError && t.outLen == 3 && t.outIdx == 1 && t.inIdx == 2
            && t.dataIn[0] == 0x18 && t.dataIn[1] == 0x02
  {
    assert Lun(0x18) == 0 && NetFun(0x18) == 0x06;
    var es := ShortExchange(0x18, 0x02);
    assert es[..0] == [] && es[..1] == es[..0] + [es[0]] && es[..2] == es[..1] + [es[1]];
    assert es[..3] == es[..2] + [es[2]] && es[..4] == es[..3] + [es[3]];
    RunSnoc(s, es[..0], es[0]);
    RunSnoc(s, es[..1], es[1]);
    RunSnoc(s, es[..2], es[2]);
    var c := Run(s, es[..3]);
    assert c.phase == WriteEnd && c.inIdx == 1 && c.outIdx == 0 && c.dataIn[0] == 0x18;
    RunSnoc(s, es[..3], es[3]);
  }

  lemma AfterShortExchange(s: Bmc)
    requires Initial(s)
    ensures var t := Run(s, ShortExchange(0x18, 0x02));
            t.phase == Idle && t.error == NoError && t.outIdx == t.outLen == 3 && t.inIdx == 2
            && t.dataIn[0] == 0x18 && t.dataIn[1] == 0x02
  {
    hide ProcessRequest, StoreOrAbort, KcsModel.ReadKcsCmd;
    var es := ShortExchange(0x18, 0x02);
    assert es[..5] == es[..4] + [es[4]] && es[..6] == es[..5] + [es[5]] && es == es[..6] + [es[6]];
    AfterShortWrite(s);
    RunSnoc(s, es[..4], es[4]);
    RunSnoc(s, es[..5], es[5]);
    RunSnoc(s, es[..6], es[6]);
  }

  /**
    Discipline is needed: from `kcs_init`, a complete exchange followed by a
    stray WRITE_END and a data byte leaves the cursor past the end of the new
    response.
   */
  lemma UndisciplinedEndEscapes(s: Bmc, x: byte)
    requires Initial(s)
    ensures var u := Run(s, ShortExchange(0x18, 0x02) + [Command(WRITE_END)] + [Data(x)]);
            u.phase == Read && u.outLen == 3 && u.outIdx == 4 && !ReadWindow(u)
  {
    assert Lun(0x18) == 0 && NetFun(0x18) == 0x06;
    var es := ShortExchange(0x18, 0x02);
    AfterShortExchange(s);
    RunSnoc(s, es, Command(WRITE_END));
    RunSnoc(s, es + [Command(WRITE_END)], Data(x));
    var t := Run(s, es + [Command(WRITE_END)]);
    assert t.phase == WriteEnd && t.outIdx == 3;
    var req := t.dataIn[2 := x][2..3];
    assert Execute(0x06, 0x02, req, t.provision).data == [IPMI_CC_INVALID_CMD];
  }

  /** A five-byte answer of which the host has fetched two bytes when it sends WRITE_END again. */
  const TWO_BYTES_IN: seq<Event> :=
    [Command(WRITE_START), Data(0x20), Command(WRITE_END), Data(0x23), Data(READ), Command(WRITE_END)]

  lemma AfterOneByte(s: Bmc)
    requires Initial(s)
    ensures var t := Run(s, TWO_BYTES_IN[..4]);
            && t.phase == Read && t.error == NoError && t.outLen == 5 && t.outIdx == 1 && t.inIdx == 2
            && t.dataIn[0] == 0x20 && t.dataIn[1] == 0x23
  {
    assert Lun(0x20) == 0 && NetFun(0x20) == 0x08;
    var es := TWO_BYTES_IN;
    assert es[..0] == [] && es[..1] == es[..0] + [es[0]] && es[..2] == es[..1] + [es[1]];
    assert es[..3] == es[..2] + [es[2]] && es[..4] == es[..3] + [es[3]];
    RunSnoc(s, es[..0], es[0]);
    RunSnoc(s, es[..1], es[1]);
    RunSnoc(s, es[..2], es[2]);
    var c := Run(s, es[..3]);
    assert c.phase == WriteEnd && c.inIdx == 1 && c.outIdx == 0 && c.dataIn[0] == 0x20;
    RunSnoc(s, es[..3], es[3]);
  }

  lemma AfterTwoBytes(s: Bmc)
    requires Initial(s)
    ensures var t := Run(s, TWO_BYTES_IN);
            t.phase == WriteEnd && t.outIdx == 2 && t.inIdx == 2 && t.dataIn[0] == 0x20 && t.dataIn[1] == 0x23
  {
    hide ProcessRequest, StoreOrAbort;
    var es := TWO_BYTES_IN;
    assert es[..5] == es[..4] + [es[4]] && es == es[..5] + [es[5]];
    AfterOneByte(s);
    RunSnoc(s, es[..4], es[4]);
    RunSnoc(s, es[..5], es[5]);
  }

  /**
    The window alone is not enough: here the cursor stays inside the second
    response, yet the host never gets that response's first two bytes.
   */
  lemma UndisciplinedEndSkipsBytes(s: Bmc, x: byte)
    requires Initial(s)
    ensures var es := TWO_BYTES_IN + [Data(x)];
            var u := Run(s, es);
            && u.phase == Read && ReadWindow(u) && u.outIdx == 3
            && Sent(s, es) == [u.dataOut[2]] != u.dataOut[..3]
  {
    hide Step;
    var es := TWO_BYTES_IN + [Data(x)];
    assert es[..|es| - 1] == TWO_BYTES_IN;
    AfterTwoBytes(s);
    VisibleAlways(s, TWO_BYTES_IN);
    CursorStepHandled(Run(s, TWO_BYTES_IN), x);
  }
}
