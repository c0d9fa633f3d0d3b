/**
  The BMC side of a KCS channel as a state machine on values: one step per
  interrupt, plus the host actions between interrupts. Class `Channel` in
  KcsChannel.dfy is the driver itself and is proved to take exactly these steps.
 */
module KcsModel {
  import opened Options
  import opened IpmiHandler

  // Control codes, section 9.10 of the IPMI 2.0 specification
  const GET_STATUS_ABORT: byte := 0x60
  const WRITE_START: byte := 0x61
  const WRITE_END: byte := 0x62
  const READ: byte := 0x68

  const ZERO_DATA: byte := 0x00
  const MAX_KCS_PKT_SIZE := 0x1_0000

  /** The state bits of section 9.7. */
  datatype State = IdleState | ReadState | WriteState | ErrorState

  datatype Phase = Idle | WriteStart | WriteData | WriteEnd | ReadWait | Read | Abort1 | Abort2 | Error

  datatype KcsError = NoError | AbortByCmd | IllegalCtrlCmd | LengthError

  function ErrorCode(e: KcsError): byte {
    match e
    case NoError => 0x00
    case AbortByCmd => 0x01
    case IllegalCtrlCmd => 0x02
    case LengthError => 0x06
  }

  /**
    Input and output data registers, the state bits and the handshake flags of
    the status register. `seen` records the state bits at the moment IBF last
    went clear: what a host that polls IBF sees first.
   */
  datatype Regs = Regs(input: byte, output: byte, state: State, ibf: bool, obf: bool, cod: bool, seen: State) {
    function SetState(s: State): Regs { this.(state := s) }
    function TakeInput(): Regs { this.(ibf := false, seen := if ibf then state else seen) }
    function PutOutput(b: byte): Regs { this.(output := b, obf := true) }
  }

  /** `struct kcs_packet`, the registers it talks through, and the saved environment. */
  datatype Bmc = Bmc(
    regs: Regs, phase: Phase, error: KcsError, readReqDone: bool,
    inIdx: nat, dataIn: seq<byte>,
    outLen: nat, outIdx: nat, dataOut: seq<byte>,
    provision: Provision)
  {
    predicate Valid() {
      |dataIn| == |dataOut| == MAX_KCS_PKT_SIZE && outIdx < MAX_KCS_PKT_SIZE
    }

    /** The two remaining u16 fields are within their width. */
    predicate U16() {
      inIdx < 0x1_0000 && outLen < 0x1_0000
    }
  }

  /** `i++` on a u16. */
  function Bump(i: nat): nat { (i + 1) % 0x1_0000 }

  /** int to u32, as the comparison with a `sizeof` converts. */
  function U32(i: int): nat { i % 0x1_0000_0000 }

  /** `bytes` copied over the front of `buffer`. */
  function Overwrite(buffer: seq<byte>, bytes: seq<byte>): seq<byte>
    requires |bytes| <= |buffer|
  {
    bytes + buffer[|bytes|..]
  }

  // ------------------------------------------------------------------ the driver's functions

  function ForceAbort(s: Bmc): Bmc {
    s.(regs := s.regs.SetState(ErrorState).TakeInput().PutOutput(ZERO_DATA),
       phase := Error, readReqDone := false, inIdx := 0)
  }

  function InitPacket(s: Bmc): Bmc {
    s.(readReqDone := false, phase := Idle, error := NoError, inIdx := 0, outIdx := 0, outLen := 0)
  }

  /** The response to what the input buffer holds, `n` being the packet length. */
  function BuildResponse(dataIn: seq<byte>, n: nat, provision: Provision): (r: Reply)
    requires n <= |dataIn| == MAX_KCS_PKT_SIZE
    ensures 3 <= |r.data| <= 18
  {
    var lun, netFun, cmd := Lun(dataIn[0]), NetFun(dataIn[0]), dataIn[1];
    var header := ResponseHeader(lun, netFun);
    if lun != 0 then
      Reply([header, cmd, IPMI_CC_INVALID_CMD_LUN], provision)
    else if U32(n - 2) > MAX_IPMI_REQ_DATA_SIZE then
      Reply([header, cmd, IPMI_CC_OUT_OF_SPACE], provision)
    else
      var body := Execute(netFun, cmd, dataIn[2..n], provision);
      if |body.data| + 2 > MAX_KCS_PKT_SIZE then
        Reply([header, cmd, IPMI_CC_UNSPECIFIED], body.provision)
      else
        Reply([header, cmd] + body.data, body.provision)
  }

  /** What the BMC answers depends on the bytes of the packet only. */
  lemma BuildResponseIsRespond(buffer: seq<byte>, r: seq<byte>, provision: Provision)
    requires |buffer| == MAX_KCS_PKT_SIZE
    requires 2 <= |r| < 0x1_0000 && buffer[..|r|] == r
    ensures var (bytes, after) := AnswerInBytes(r, provision);
            BuildResponse(buffer, |r|, provision) == Reply(bytes, after)
  {
    hide AnswerInBytes;
    assert buffer[0] == r[0] && buffer[1] == r[1];
    assert buffer[2..|r|] == r[2..];
    RespondInBytes(r, provision);
  }

  /** A packet of less than two bytes is refused, whatever is left in the buffer. */
  lemma ShortPacketRefused(buffer: seq<byte>, n: nat, provision: Provision)
    requires |buffer| == MAX_KCS_PKT_SIZE && n < 2
    ensures BuildResponse(buffer, n, provision)
         == Reply([buffer[0] + 4, buffer[1], if buffer[0] & 3 == 0 then 0xC4 else 0xC2], provision)
  {
    hide ResponseHeader, Lun, NetFun;
    HeaderInBytes(buffer[0]);
  }

  function ProcessRequest(s: Bmc): (t: Bmc)
    requires s.Valid() && s.inIdx < MAX_KCS_PKT_SIZE
    ensures t.Valid() && (s.U16() ==> t.U16())
  {
    if !s.readReqDone then s else
    var reply := BuildResponse(s.dataIn, s.inIdx, s.provision);
    var out := Overwrite(s.dataOut, reply.data);
    s.(dataOut := out, outLen := |reply.data|, provision := reply.provision,
       phase := Read, regs := s.regs.PutOutput(out[s.outIdx]), outIdx := Bump(s.outIdx), readReqDone := false)
  }

  function StoreInput(s: Bmc): (t: Bmc)
    requires s.Valid() && s.inIdx < MAX_KCS_PKT_SIZE
    ensures t.Valid() && (s.U16() ==> t.U16())
  {
    s.(dataIn := s.dataIn[s.inIdx := s.regs.input], inIdx := Bump(s.inIdx), regs := s.regs.TakeInput())
  }

  /** The interrupt for a byte written to the data register. */
  function ReadKcsData(s: Bmc): (t: Bmc)
    requires s.Valid()
    ensures t.Valid() && (s.U16() ==> t.U16())
  {
    match s.phase
    case WriteStart => StoreOrAbort(s.(phase := WriteData))
    case WriteData => StoreOrAbort(s)
    case WriteEnd =>
      if s.inIdx >= MAX_KCS_PKT_SIZE then ForceAbort(s.(error := LengthError))
      else ProcessRequest(StoreInput(s.(regs := s.regs.SetState(ReadState))).(phase := ReadWait, readReqDone := true))
    case Read =>
      var done := s.outIdx == s.outLen;
      var regs := (if done then s.regs.SetState(IdleState) else s.regs).TakeInput();
      if regs.input != READ then s.(regs := regs.SetState(ErrorState).PutOutput(ZERO_DATA))
      else if done then s.(regs := regs.PutOutput(ZERO_DATA), phase := Idle)
      else s.(regs := regs.PutOutput(s.dataOut[s.outIdx]), outIdx := Bump(s.outIdx))
    case Abort1 =>
      s.(regs := s.regs.SetState(ReadState).TakeInput().PutOutput(ErrorCode(s.error)), phase := Abort2)
    case Abort2 =>
      s.(regs := s.regs.SetState(IdleState).TakeInput().PutOutput(ZERO_DATA), phase := Idle)
    case _ => ForceAbort(s)
  }

  function StoreOrAbort(s: Bmc): (t: Bmc)
    requires s.Valid()
    ensures t.Valid() && (s.U16() ==> t.U16())
  {
    if s.inIdx >= MAX_KCS_PKT_SIZE then ForceAbort(s.(error := LengthError))
    else StoreInput(s.(regs := s.regs.SetState(WriteState).PutOutput(ZERO_DATA)))
  }

  /** The interrupt for a byte written to the command register. */
  function ReadKcsCmd(s: Bmc): Bmc {
    var t := s.(regs := s.regs.SetState(WriteState).PutOutput(ZERO_DATA).TakeInput());
    var cmd := s.regs.input;
    if cmd == WRITE_START then InitPacket(t).(phase := WriteStart)
    else if cmd == WRITE_END then
      if t.error != NoError then ForceAbort(t) else t.(phase := WriteEnd)
    else if cmd == GET_STATUS_ABORT then t.(phase := Abort1, error := AbortByCmd)
    else ForceAbort(t.(error := IllegalCtrlCmd))
  }

  function IrqHandler(s: Bmc): (t: Bmc)
    requires s.Valid()
    ensures t.Valid() && (s.U16() ==> t.U16())
  {
    if !s.regs.ibf then s else if s.regs.cod then ReadKcsCmd(s) else ReadKcsData(s)
  }

  // ------------------------------------------------------------------ runs

  /** What the host can do: write the command or data register, or take the output byte. */
  datatype Event = Command(b: byte) | Data(b: byte) | Collect

  function HostAct(r: Regs, e: Event): Regs {
    match e
    case Command(b) => r.(input := b, ibf := true, cod := true)
    case Data(b) => r.(input := b, ibf := true, cod := false)
    case Collect => r.(obf := false)
  }

  /** A host action and the interrupt it raises. */
  function Step(s: Bmc, e: Event): (t: Bmc)
    requires s.Valid()
    ensures t.Valid()
    ensures s.U16() ==> t.U16()
  {
    IrqHandler(s.(regs := HostAct(s.regs, e)))
  }

  function Run(s: Bmc, es: seq<Event>): (t: Bmc)
    requires s.Valid()
    ensures t.Valid()
    ensures s.U16() ==> t.U16()
  {
    if es == [] then s else Step(Run(s, es[..|es| - 1]), es[|es| - 1])
  }

  lemma {:induction false} RunConcat(s: Bmc, a: seq<Event>, b: seq<Event>)
    requires s.Valid()
    ensures Run(s, a + b) == Run(Run(s, a), b)
  {
    if b == [] {
      assert a + b == a;
    } else {
      var n := |b| - 1;
      RunConcat(s, a, b[..n]);
      assert (a + b)[..|a + b| - 1] == a + b[..n];
    }
  }

  /** The state after `kcs_init`: a zeroed packet and idle state bits; registers are otherwise arbitrary. */
  predicate Initial(s: Bmc) {
    && s.Valid() && s.phase == Idle && s.error == NoError && !s.readReqDone
    && s.inIdx == s.outLen == s.outIdx == 0
    && s.regs.state == IdleState && !s.regs.ibf
  }
}
