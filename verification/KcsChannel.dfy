/**
  The KCS driver: the packet and registers of the one enabled channel, updated
  in place by the interrupt handler. Every method is proved to be the state
  machine step of KcsModel.dfy.
 */
module KcsChannel {
  import opened Options
  import opened IpmiHandler
  import opened KcsModel

  class Channel {
    var regs: Regs
    var phase: Phase
    var error: KcsError
    var readReqDone: bool
    var inIdx: nat
    const dataIn: array<byte>
    var outLen: nat
    var outIdx: nat
    const dataOut: array<byte>
    var provision: Provision

    ghost predicate Valid()
      reads this
    {
      && dataIn.Length == MAX_KCS_PKT_SIZE && dataOut.Length == MAX_KCS_PKT_SIZE && dataIn != dataOut
      && outIdx < MAX_KCS_PKT_SIZE
    }

    ghost function View(): (s: Bmc)
      reads this, dataIn, dataOut
      requires Valid()
      ensures s.Valid()
    {
      Bmc(regs, phase, error, readReqDone, inIdx, dataIn[..], outLen, outIdx, dataOut[..], provision)
    }

    /** `kcs_init` over zeroed packet memory; the data registers hold whatever they held. */
    constructor (input: byte, output: byte, obf: bool, env: Provision)
      ensures Valid() && fresh(dataIn) && fresh(dataOut)
      ensures Initial(View()) && provision == env
    {
      regs := Regs(input, output, IdleState, false, obf, false, IdleState);
      phase, error, readReqDone := Idle, NoError, false;
      inIdx, outLen, outIdx := 0, 0, 0;
      provision := env;
      dataIn := new byte[MAX_KCS_PKT_SIZE](_ => 0);
      dataOut := new byte[MAX_KCS_PKT_SIZE](_ => 0);
    }

    method SetKcsState(s: State)
      modifies this`regs
      ensures regs == old(regs).SetState(s)
    {
      regs := regs.(state := s);
    }

    /** Reading the input register clears IBF. */
    method ReadData() returns (b: byte)
      modifies this`regs
      ensures b == old(regs).input && regs == old(regs).TakeInput()
    {
      b := regs.input;
      regs := regs.(ibf := false, seen := if regs.ibf then regs.state else regs.seen);
    }

    /** Writing the output register sets OBF. */
    method WriteData(b: byte)
      modifies this`regs
      ensures regs == old(regs).PutOutput(b)
    {
      regs := regs.(output := b, obf := true);
    }

    method KcsForceAbort()
      requires Valid()
      modifies this
      ensures Valid() && View() == ForceAbort(old(View()))
    {
      SetKcsState(ErrorState);
      var _ := ReadData();
      WriteData(ZERO_DATA);
      phase := Error;
      readReqDone := false;
      inIdx := 0;
    }

    method InitKcsPacket()
      requires Valid()
      modifies this
      ensures Valid() && View() == InitPacket(old(View()))
    {
      readReqDone := false;
      phase := Idle;
      error := NoError;
      inIdx := 0;
      outIdx := 0;
      outLen := 0;
    }

    /** Copies the first `n` bytes of `res` into the output buffer from index `at` on. */
    method CopyOut(res: array<byte>, n: nat, at: nat)
      requires Valid() && res != dataOut
      requires n <= res.Length && at + n <= MAX_KCS_PKT_SIZE
      modifies dataOut
      ensures dataOut[..] == old(dataOut[..at]) + res[..n] + old(dataOut[at + n..])
    {
      var i := 0;
      while i < n
        invariant i <= n
        invariant dataOut[..at] == old(dataOut[..at])
        invariant dataOut[at..at + i] == res[..i]
        invariant dataOut[at + i..] == old(dataOut[at + i..])
      {
        dataOut[at + i] := res[i];
        i := i + 1;
      }
    }

    /** The three bytes of a response that carries only a completion code. */
    method PutError(header: byte, cmd: byte, cc: byte)
      requires Valid()
      modifies this`outLen, dataOut
      ensures outLen == 3
      ensures dataOut[..] == Overwrite(old(dataOut[..]), [header, cmd, cc])
    {
      dataOut[0] := header;
      dataOut[1] := cmd;
      dataOut[2] := cc;
      outLen := 3;
    }

    /** Header, command and the handler's `len` result bytes. */
    method PutAnswer(header: byte, cmd: byte, res: array<byte>, len: nat)
      requires Valid() && res != dataOut
      requires len <= res.Length && len + 2 <= MAX_KCS_PKT_SIZE
      modifies this`outLen, dataOut
      ensures outLen == len + 2
      ensures dataOut[..] == Overwrite(old(dataOut[..]), [header, cmd] + old(res[..len]))
    {
      dataOut[0] := header;
      dataOut[1] := cmd;
      CopyOut(res, len, 2);
      outLen := len + 2;
    }

    /** Fills the output buffer with the response to the packet in the input buffer. */
    method FillResponse()
      requires Valid() && inIdx < MAX_KCS_PKT_SIZE
      modifies this`outLen, this`provision, dataOut
      ensures var reply := BuildResponse(dataIn[..], inIdx, old(provision));
              && outLen == |reply.data| && provision == reply.provision
              && dataOut[..] == Overwrite(old(dataOut[..]), reply.data)
      ensures (dataOut[..outLen], provision) ==
              if inIdx < 2
              then ([dataIn[0] + 4, dataIn[1], if dataIn[0] & 3 == 0 then 0xC4 else 0xC2], old(provision))
              else AnswerInBytes(dataIn[..inIdx], old(provision))
    {
      hide AnswerInBytes;
      if inIdx < 2 {
        ShortPacketRefused(dataIn[..], inIdx, provision);
      } else {
        BuildResponseIsRespond(dataIn[..], dataIn[..inIdx], provision);
      }
      var lun := Lun(dataIn[0]);
      var netFun := NetFun(dataIn[0]);
      var cmd := dataIn[1];
      var header := ResponseHeader(lun, netFun);
      if lun != 0 {
        PutError(header, cmd, IPMI_CC_INVALID_CMD_LUN);
        return;
      }
      if U32(inIdx - 2) > MAX_IPMI_REQ_DATA_SIZE {
        PutError(header, cmd, IPMI_CC_OUT_OF_SPACE);
        return;
      }
      var req := CopyRequest();
      var res := new byte[MAX_IPMI_RES_DATA_SIZE];
      var len, env := IpmiCmdHandler(netFun, cmd, req, provision, res);
      provision := env;
      // At most 18 bytes (BuildResponse): the driver's test against the buffer size never fires.
      PutAnswer(header, cmd, res, len);
    }

    /** The request data: the packet without its first two bytes. */
    method CopyRequest() returns (req: seq<byte>)
      requires Valid() && 2 <= inIdx <= MAX_KCS_PKT_SIZE
      ensures req == dataIn[..][2..inIdx]
    {
      req := [];
      var i := 0;
      while i < inIdx - 2
        invariant i <= inIdx - 2
        invariant req == dataIn[2..i + 2]
      {
        req := req + [dataIn[i + 2]];
        i := i + 1;
      }
    }

    method ProcessKcsRequest()
      requires Valid() && inIdx < MAX_KCS_PKT_SIZE
      modifies this, dataOut
      ensures Valid() && View() == ProcessRequest(old(View()))
    {
      if !readReqDone {
        return;
      }
      FillResponse();
      phase := Read;
      WriteData(dataOut[outIdx]);
      outIdx := Bump(outIdx);
      readReqDone := false;
    }

    method StoreInputByte()
      requires Valid() && inIdx < MAX_KCS_PKT_SIZE
      modifies this, dataIn
      ensures Valid() && View() == StoreInput(old(View()))
    {
      var b := ReadData();
      dataIn[inIdx] := b;
      inIdx := Bump(inIdx);
    }

    method AcceptWriteByte()
      requires Valid()
      modifies this, dataIn
      ensures Valid() && View() == StoreOrAbort(old(View()))
    {
      if inIdx >= MAX_KCS_PKT_SIZE {
        error := LengthError;
        KcsForceAbort();
        return;
      }
      SetKcsState(WriteState);
      WriteData(ZERO_DATA);
      StoreInputByte();
    }

    method AcceptLastByte()
      requires Valid() && phase == WriteEnd
      modifies this, dataIn, dataOut
      ensures Valid() && View() == KcsModel.ReadKcsData(old(View()))
    {
      if inIdx >= MAX_KCS_PKT_SIZE {
        error := LengthError;
        KcsForceAbort();
        return;
      }
      SetKcsState(ReadState);
      StoreInputByte();
      phase := ReadWait;
      readReqDone := true;
      ProcessKcsRequest();
    }

    method SendNextByte()
      requires Valid() && phase == Read
      modifies this
      ensures Valid() && View() == KcsModel.ReadKcsData(old(View()))
    {
      if outIdx == outLen {
        SetKcsState(IdleState);
      }
      var data := ReadData();
      if data != READ {
        SetKcsState(ErrorState);
        WriteData(ZERO_DATA);
        return;
      }
      if outIdx == outLen {
        WriteData(ZERO_DATA);
        phase := Idle;
        return;
      }
      WriteData(dataOut[outIdx]);
      outIdx := Bump(outIdx);
    }

    method ReadKcsData()
      requires Valid()
      modifies this, dataIn, dataOut
      ensures Valid() && View() == KcsModel.ReadKcsData(old(View()))
    {
      match phase {
        case WriteStart =>
          phase := Phase.WriteData;
          AcceptWriteByte();
        case WriteData =>
          AcceptWriteByte();
        case WriteEnd =>
          AcceptLastByte();
        case Read =>
          SendNextByte();
        case Abort1 =>
          SetKcsState(ReadState);
          var _ := ReadData();
          WriteData(ErrorCode(error));
          phase := Abort2;
        case Abort2 =>
          SetKcsState(IdleState);
          var _ := ReadData();
          WriteData(ZERO_DATA);
          phase := Idle;
        case _ =>
          KcsForceAbort();
      }
    }

    method ReadKcsCmd()
      requires Valid()
      modifies this
      ensures Valid() && View() == KcsModel.ReadKcsCmd(old(View()))
    {
      SetKcsState(WriteState);
      WriteData(ZERO_DATA);
      var cmd := ReadData();
      if cmd == WRITE_START {
        InitKcsPacket();
        phase := WriteStart;
      } else if cmd == WRITE_END {
        if error != NoError {
          KcsForceAbort();
          return;
        }
        phase := WriteEnd;
      } else if cmd == GET_STATUS_ABORT {
        phase := Abort1;
        error := AbortByCmd;
      } else {
        error := IllegalCtrlCmd;
        KcsForceAbort();
      }
    }

    method KcsIrqHandler()
      requires Valid()
      modifies this, dataIn, dataOut
      ensures Valid() && View() == IrqHandler(old(View()))
    {
      if regs.ibf {
        if regs.cod {
          ReadKcsCmd();
        } else {
          ReadKcsData();
        }
      }
    }

    /** The hardware: a host access, and the interrupt it raises when IBF is set. */
    method HostAccess(e: Event)
      requires Valid()
      modifies this, dataIn, dataOut
      ensures Valid() && View() == Step(old(View()), e)
    {
      regs := HostAct(regs, e);
      KcsIrqHandler();
    }
  }
}
