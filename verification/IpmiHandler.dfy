/**
  The IPMI command handler that U-Boot runs behind the KCS channel in forced
  firmware update mode: the command table, its six handlers and the header that
  is put in front of every response.

  Handlers write their answer into a result buffer and return its length, as
  the C code does; `Execute` says what the answer is.
 */
module IpmiHandler {
  import opened Options

  // Completion codes
  const IPMI_CC_OK: byte := 0x00
  const IPMI_CC_INVALID_CMD: byte := 0xC1
  const IPMI_CC_INVALID_CMD_LUN: byte := 0xC2
  const IPMI_CC_OUT_OF_SPACE: byte := 0xC4
  const IPMI_CC_INVALID_DATA_LENGTH: byte := 0xC7
  const IPMI_CC_INVALID_DATA_FIELD: byte := 0xCC
  const IPMI_CC_UNSPECIFIED: byte := 0xFF

  // Network functions and commands
  const NETFN_APP: byte := 0x06
  const NETFN_FIRMWARE: byte := 0x08
  const NETFN_INTEL_OEM: byte := 0x30
  const CMD_GET_DEV_ID: byte := 0x01
  const CMD_GET_SELF_TEST_RESULTS: byte := 0x04
  const CMD_FWUPD_GET_EXECUTION_CTX: byte := 0x23
  const CMD_INTL_OEM_GET_BUFFER_SIZE: byte := 0x66
  const CMD_INTL_OEM_GET_SEC_MODE: byte := 0xB3
  const CMD_INTL_OEM_SET_SEC_MODE: byte := 0xB4

  const RESTRICTION_MODE_MIN_VALUE: byte := 3
  const RESTRICTION_MODE_MAX_VALUE: byte := 5
  const MAX_KCS_BUF_SIZE := 1020
  const MAX_IPMB_BUF_SIZE := 1020
  const MAX_IPMI_REQ_DATA_SIZE := 0x1_0000
  const MAX_IPMI_RES_DATA_SIZE := 64

  /** The saved environment variable "provision", as the number it parses to. */
  type Provision = Option<int>

  /** An answer (completion code first) and the environment it leaves behind. */
  datatype Reply = Reply(data: seq<byte>, provision: Provision)

  datatype Handler = GetDeviceId | GetSelfTestResult | GetExecutionCtx | GetBufferSize | GetSecurityMode | SetSecurityMode

  datatype TableEntry = TableEntry(netFun: byte, cmd: byte, handler: Handler)

  const CMD_INFO: seq<TableEntry> := [
    TableEntry(NETFN_APP, CMD_GET_DEV_ID, GetDeviceId),
    TableEntry(NETFN_APP, CMD_GET_SELF_TEST_RESULTS, GetSelfTestResult),
    TableEntry(NETFN_FIRMWARE, CMD_FWUPD_GET_EXECUTION_CTX, GetExecutionCtx),
    TableEntry(NETFN_INTEL_OEM, CMD_INTL_OEM_GET_BUFFER_SIZE, GetBufferSize),
    TableEntry(NETFN_INTEL_OEM, CMD_INTL_OEM_GET_SEC_MODE, GetSecurityMode),
    TableEntry(NETFN_INTEL_OEM, CMD_INTL_OEM_SET_SEC_MODE, SetSecurityMode)
  ]

  // ------------------------------------------------------------------ what a command answers

  const DEVICE_ID: seq<byte> := [
    IPMI_CC_OK, 0x23, 0x00, 0x82, 0x03, 0x02, 0x00, 0x57, 0x01, 0x00, 0x00, 0x00, 0x00, 0x00, 0x00, 0x00
  ]

  /** A command that takes no request data. */
  function NoData(req: seq<byte>, answer: seq<byte>): seq<byte> {
    if req == [] then answer else [IPMI_CC_INVALID_DATA_LENGTH]
  }

  /** simple_strtol into a u8: the low eight bits of the parsed number. */
  function LowByte(v: int): byte {
    (v % 256) as bv8
  }

  function SecurityModeAnswer(provision: Provision): seq<byte> {
    match provision
    case None => [IPMI_CC_UNSPECIFIED]
    case Some(v) => [IPMI_CC_OK, LowByte(v), 0x00]
  }

  predicate LegalMode(mode: byte) {
    RESTRICTION_MODE_MIN_VALUE <= mode <= RESTRICTION_MODE_MAX_VALUE
  }

  /** The answer to one command, by network function and command code. */
  function Execute(netFun: byte, cmd: byte, req: seq<byte>, provision: Provision): Reply {
    if netFun == NETFN_APP && cmd == CMD_GET_DEV_ID then
      Reply(NoData(req, DEVICE_ID), provision)
    else if netFun == NETFN_APP && cmd == CMD_GET_SELF_TEST_RESULTS then
      Reply(NoData(req, [IPMI_CC_OK, 0x56, 0x00]), provision)
    else if netFun == NETFN_FIRMWARE && cmd == CMD_FWUPD_GET_EXECUTION_CTX then
      Reply([IPMI_CC_OK, 0x11, 0x01], provision)
    else if netFun == NETFN_INTEL_OEM && cmd == CMD_INTL_OEM_GET_BUFFER_SIZE then
      Reply(NoData(req, [IPMI_CC_OK, 0xFF, 0xFF]), provision)
    else if netFun == NETFN_INTEL_OEM && cmd == CMD_INTL_OEM_GET_SEC_MODE then
      Reply(NoData(req, SecurityModeAnswer(provision)), provision)
    else if netFun == NETFN_INTEL_OEM && cmd == CMD_INTL_OEM_SET_SEC_MODE then
      if |req| != 1 then Reply([IPMI_CC_INVALID_DATA_LENGTH], provision)
      else if !LegalMode(req[0]) then Reply([IPMI_CC_INVALID_DATA_FIELD], provision)
      else Reply([IPMI_CC_OK], Some(req[0] as int))
    else
      Reply([IPMI_CC_INVALID_CMD], provision)
  }

  /** GET_RESP_NETFN_LUN at u8 width: response network function in bits 7..2, LUN in bits 1..0. */
  function ResponseHeader(lun: byte, netFun: byte): byte {
    (lun & 0x03) | (((netFun + 1) << 2) & 0xFD)
  }

  function Lun(b: byte): byte { b & 0x03 }

  function NetFun(b: byte): byte { b >> 2 }

  /** The whole response to a request of at least two bytes. */
  function Respond(r: seq<byte>, provision: Provision): Reply
    requires 2 <= |r|
  {
    var header := ResponseHeader(Lun(r[0]), NetFun(r[0]));
    if Lun(r[0]) != 0 then
      Reply([header, r[1], IPMI_CC_INVALID_CMD_LUN], provision)
    else
      var body := Execute(NetFun(r[0]), r[1], r[2..], provision);
      Reply([header, r[1]] + body.data, body.provision)
  }

  // ------------------------------------------------------------------ the answers, byte for byte

  /**
    What the IPMI 2.0 specification and the firmware's own commands have on the
    wire for a request `r`, and the environment afterwards. It is the reference
    that the handlers, the table and the header are proved against.
   */
  function AnswerInBytes(r: seq<byte>, saved: Provision): (seq<byte>, Provision)
    requires 2 <= |r|
  {
    if r[0] & 3 != 0 then ([r[0] + 4, r[1], 0xC2], saved)
    else if r[0] == 0x18 && r[1] == 0x01 then
      (if |r| == 2 then [0x1C, 0x01, 0x00, 0x23, 0x00, 0x82, 0x03, 0x02, 0x00, 0x57, 0x01,
                         0x00, 0x00, 0x00, 0x00, 0x00, 0x00, 0x00]
       else [0x1C, 0x01, 0xC7], saved)
    else if r[0] == 0x18 && r[1] == 0x04 then
      (if |r| == 2 then [0x1C, 0x04, 0x00, 0x56, 0x00] else [0x1C, 0x04, 0xC7], saved)
    else if r[0] == 0x20 && r[1] == 0x23 then ([0x24, 0x23, 0x00, 0x11, 0x01], saved)
    else if r[0] == 0xC0 && r[1] == 0x66 then
      (if |r| == 2 then [0xC4, 0x66, 0x00, 0xFF, 0xFF] else [0xC4, 0x66, 0xC7], saved)
    else if r[0] == 0xC0 && r[1] == 0xB3 then
      (if |r| != 2 then [0xC4, 0xB3, 0xC7]
       else if saved.None? then [0xC4, 0xB3, 0xFF]
       else [0xC4, 0xB3, 0x00, (saved.value % 256) as bv8, 0x00], saved)
    else if r[0] == 0xC0 && r[1] == 0xB4 then
      if |r| != 3 then ([0xC4, 0xB4, 0xC7], saved)
      else if r[2] == 3 then ([0xC4, 0xB4, 0x00], Some(3))
      else if r[2] == 4 then ([0xC4, 0xB4, 0x00], Some(4))
      else if r[2] == 5 then ([0xC4, 0xB4, 0x00], Some(5))
      else ([0xC4, 0xB4, 0xCC], saved)
    else ([r[0] + 4, r[1], 0xC1], saved)
  }

  lemma HeaderInBytes(b: byte)
    ensures ResponseHeader(Lun(b), NetFun(b)) == b + 4 && (Lun(b) != 0 <==> b & 3 != 0)
    ensures Lun(b) == 0 ==> (NetFun(b) == 0x06 <==> b == 0x18) && (NetFun(b) == 0x08 <==> b == 0x20)
                            && (NetFun(b) == 0x30 <==> b == 0xC0)
  {
  }

  lemma LegalModesInBytes(mode: byte)
    ensures LegalMode(mode) <==> mode == 3 || mode == 4 || mode == 5
    ensures mode == 3 ==> mode as int == 3
    ensures mode == 4 ==> mode as int == 4
    ensures mode == 5 ==> mode as int == 5
  {
  }

  lemma SetModeInBytes(r: seq<byte>, saved: Provision)
    requires 2 <= |r| && r[0] == 0xC0 && r[1] == 0xB4
    ensures Respond(r, saved) == Reply(AnswerInBytes(r, saved).0, AnswerInBytes(r, saved).1)
  {
    hide ResponseHeader, Lun, NetFun, LegalMode, LowByte;
    HeaderInBytes(r[0]);
    if |r| == 3 {
      LegalModesInBytes(r[2]);
      assert r[2..][0] == r[2];
    }
  }

  lemma DeviceIdInBytes(r: seq<byte>, saved: Provision)
    requires 2 <= |r| && r[0] == 0x18 && r[1] == 0x01
    ensures Respond(r, saved) == Reply(AnswerInBytes(r, saved).0, AnswerInBytes(r, saved).1)
  {
    hide ResponseHeader, Lun, NetFun, LegalMode, LowByte;
    HeaderInBytes(0x18);
    assert r[2..] == [] <==> |r| == 2;
    assert [0x1C, 0x01] + DEVICE_ID == [0x1C, 0x01, 0x00, 0x23, 0x00, 0x82, 0x03, 0x02, 0x00, 0x57, 0x01,
                                        0x00, 0x00, 0x00, 0x00, 0x00, 0x00, 0x00];
  }

  lemma AppInBytes(r: seq<byte>, saved: Provision)
    requires 2 <= |r| && (r[0] == 0x18 || r[0] == 0x20) && !(r[0] == 0x18 && r[1] == 0x01)
    ensures Respond(r, saved) == Reply(AnswerInBytes(r, saved).0, AnswerInBytes(r, saved).1)
  {
    hide ResponseHeader, Lun, NetFun, LegalMode, LowByte;
    HeaderInBytes(r[0]);
    assert r[2..] == [] <==> |r| == 2;
  }

  lemma OemInBytes(r: seq<byte>, saved: Provision)
    requires 2 <= |r| && r[0] == 0xC0 && r[1] != 0xB4
    ensures Respond(r, saved) == Reply(AnswerInBytes(r, saved).0, AnswerInBytes(r, saved).1)
  {
    hide ResponseHeader, Lun, NetFun, LegalMode;
    HeaderInBytes(r[0]);
    assert r[2..] == [] <==> |r| == 2;
  }

  lemma UnlistedInBytes(r: seq<byte>, saved: Provision)
    requires 2 <= |r| && r[0] !in {0x18, 0x20, 0xC0}
    ensures Respond(r, saved) == Reply(AnswerInBytes(r, saved).0, AnswerInBytes(r, saved).1)
  {
    hide ResponseHeader, Lun, NetFun, LegalMode, LowByte;
    HeaderInBytes(r[0]);
  }

  /** Every response, for every request and environment, is the one above. */
  lemma RespondInBytes(r: seq<byte>, saved: Provision)
    requires 2 <= |r|
    ensures Respond(r, saved) == Reply(AnswerInBytes(r, saved).0, AnswerInBytes(r, saved).1)
  {
    hide Respond, AnswerInBytes;
    if r[0] == 0x18 && r[1] == 0x01 {
      DeviceIdInBytes(r, saved);
    } else if r[0] == 0x18 || r[0] == 0x20 {
      AppInBytes(r, saved);
    } else if r[0] != 0xC0 {
      UnlistedInBytes(r, saved);
    } else if r[1] == 0xB4 {
      SetModeInBytes(r, saved);
    } else {
      OemInBytes(r, saved);
    }
  }

  /** The same of the command table alone, for a network function of six bits. */
  lemma ExecuteInBytes(netFun: byte, cmd: byte, req: seq<byte>, saved: Provision)
    requires netFun < 0x40
    ensures var reply := Execute(netFun, cmd, req, saved);
            AnswerInBytes([netFun << 2, cmd] + req, saved) == ([(netFun << 2) + 4, cmd] + reply.data, reply.provision)
  {
    hide ResponseHeader, Lun, NetFun, Execute, AnswerInBytes;
    var r := [netFun << 2, cmd] + req;
    assert r[2..] == req;
    SixBits(netFun);
    HeaderInBytes(r[0]);
    RespondInBytes(r, saved);
  }

  lemma SixBits(netFun: byte)
    requires netFun < 0x40
    ensures Lun(netFun << 2) == 0 && NetFun(netFun << 2) == netFun
  {
  }

  // ------------------------------------------------------------------ the handlers

  method RunGetDeviceId(req: seq<byte>, res: array<byte>) returns (len: nat)
    requires res.Length == MAX_IPMI_RES_DATA_SIZE
    modifies res
    ensures len <= res.Length && res[..len] == NoData(req, DEVICE_ID)
  {
    if |req| != 0 {
      res[0] := IPMI_CC_INVALID_DATA_LENGTH;
      return 1;
    }
    var operation: byte := 1;
    res[0] := IPMI_CC_OK;
    res[1], res[2] := 0x23, 0x00;
    res[5], res[6] := 0x02, 0x00;
    res[7], res[8], res[9] := 0x57, 0x01, 0x00;
    res[12], res[13], res[14], res[15] := 0x00, 0x00, 0x00, 0x00;
    res[3] := (operation << 7) | (0x02 & 0x7F);
    res[4] := 0x03;
    res[10], res[11] := 0x00, 0x00;
    len := 16;
    assert res[3] == 0x82;
  }

  method RunGetSelfTestResult(req: seq<byte>, res: array<byte>) returns (len: nat)
    requires res.Length == MAX_IPMI_RES_DATA_SIZE
    modifies res
    ensures len <= res.Length && res[..len] == NoData(req, [IPMI_CC_OK, 0x56, 0x00])
  {
    if |req| != 0 {
      res[0] := IPMI_CC_INVALID_DATA_LENGTH;
      return 1;
    }
    res[0], res[1], res[2] := IPMI_CC_OK, 0x56, 0x00;
    len := 3;
  }

  method RunGetExecutionCtx(req: seq<byte>, res: array<byte>) returns (len: nat)
    requires res.Length == MAX_IPMI_RES_DATA_SIZE
    modifies res
    ensures len <= res.Length && res[..len] == [IPMI_CC_OK, 0x11, 0x01]
  {
    res[2] := 0x01;
    res[1] := 0x11;
    res[0] := IPMI_CC_OK;
    len := 3;
  }

  method RunGetBufferSize(req: seq<byte>, res: array<byte>) returns (len: nat)
    requires res.Length == MAX_IPMI_RES_DATA_SIZE
    modifies res
    ensures len <= res.Length && res[..len] == NoData(req, [IPMI_CC_OK, 0xFF, 0xFF])
  {
    if |req| != 0 {
      res[0] := IPMI_CC_INVALID_DATA_LENGTH;
      return 1;
    }
    res[0] := IPMI_CC_OK;
    res[1] := (MAX_KCS_BUF_SIZE / 4) as bv8;
    res[2] := (MAX_IPMB_BUF_SIZE / 4) as bv8;
    len := 3;
  }

  method RunGetSecurityMode(req: seq<byte>, provision: Provision, res: array<byte>) returns (len: nat)
    requires res.Length == MAX_IPMI_RES_DATA_SIZE
    modifies res
    ensures len <= res.Length && res[..len] == NoData(req, SecurityModeAnswer(provision))
  {
    if |req| != 0 {
      res[0] := IPMI_CC_INVALID_DATA_LENGTH;
      return 1;
    }
    if provision.None? {
      res[0] := IPMI_CC_UNSPECIFIED;
      return 1;
    }
    res[1] := LowByte(provision.value);
    res[2] := 0x00;
    res[0] := IPMI_CC_OK;
    len := 3;
  }

  method RunSetSecurityMode(req: seq<byte>, provision: Provision, res: array<byte>)
    returns (len: nat, provision': Provision)
    requires res.Length == MAX_IPMI_RES_DATA_SIZE
    modifies res
    ensures len <= res.Length
    ensures Reply(res[..len], provision') == Execute(NETFN_INTEL_OEM, CMD_INTL_OEM_SET_SEC_MODE, req, provision)
  {
    len, provision' := 1, provision;
    if |req| != 1 {
      res[0] := IPMI_CC_INVALID_DATA_LENGTH;
      return;
    }
    if req[0] > RESTRICTION_MODE_MAX_VALUE || req[0] < RESTRICTION_MODE_MIN_VALUE {
      res[0] := IPMI_CC_INVALID_DATA_FIELD;
      return;
    }
    provision' := Some(req[0] as int);
    res[0] := IPMI_CC_OK;
  }

  /** Scans the command table and runs the handler it names. */
  method IpmiCmdHandler(netFun: byte, cmd: byte, req: seq<byte>, provision: Provision, res: array<byte>)
    returns (len: nat, provision': Provision)
    requires res.Length == MAX_IPMI_RES_DATA_SIZE
    modifies res
    ensures len <= res.Length
    ensures Reply(res[..len], provision') == Execute(netFun, cmd, req, provision)
    ensures netFun < 0x40 ==>
              AnswerInBytes([netFun << 2, cmd] + req, provision) == ([(netFun << 2) + 4, cmd] + res[..len], provision')
  {
    if netFun < 0x40 {
      ExecuteInBytes(netFun, cmd, req, provision);
    }
    provision' := provision;
    var i := 0;
    while i < |CMD_INFO|
      invariant i <= |CMD_INFO|
      invariant forall j | 0 <= j < i :: CMD_INFO[j].netFun != netFun || CMD_INFO[j].cmd != cmd
    {
      if CMD_INFO[i].netFun == netFun && CMD_INFO[i].cmd == cmd {
        break;
      }
      i := i + 1;
    }
    if i == |CMD_INFO| {
      NotInTable(netFun, cmd, req, provision);
      res[0] := IPMI_CC_INVALID_CMD;
      return 1, provision;
    }
    match CMD_INFO[i].handler {
      case GetDeviceId => len := RunGetDeviceId(req, res);
      case GetSelfTestResult => len := RunGetSelfTestResult(req, res);
      case GetExecutionCtx => len := RunGetExecutionCtx(req, res);
      case GetBufferSize => len := RunGetBufferSize(req, res);
      case GetSecurityMode => len := RunGetSecurityMode(req, provision, res);
      case SetSecurityMode => len, provision' := RunSetSecurityMode(req, provision, res);
    }
  }

  lemma NotInTable(netFun: byte, cmd: byte, req: seq<byte>, provision: Provision)
    requires forall j | 0 <= j < |CMD_INFO| :: CMD_INFO[j].netFun != netFun || CMD_INFO[j].cmd != cmd
    ensures Execute(netFun, cmd, req, provision) == Reply([IPMI_CC_INVALID_CMD], provision)
  {
    assert CMD_INFO[0].handler.GetDeviceId? && CMD_INFO[1].handler.GetSelfTestResult?;
    assert CMD_INFO[2].handler.GetExecutionCtx? && CMD_INFO[3].handler.GetBufferSize?;
    assert CMD_INFO[4].handler.GetSecurityMode? && CMD_INFO[5].handler.SetSecurityMode?;
  }

  // ------------------------------------------------------------------ properties

  predicate Supported(netFun: byte, cmd: byte) {
    exists e :: e in CMD_INFO && e.netFun == netFun && e.cmd == cmd
  }

  /** "Invalid command" is answered exactly for what is not in the table. */
  lemma InvalidCommandExactly(netFun: byte, cmd: byte, req: seq<byte>, provision: Provision)
    ensures Execute(netFun, cmd, req, provision).data != []
    ensures Execute(netFun, cmd, req, provision).data[0] == IPMI_CC_INVALID_CMD <==> !Supported(netFun, cmd)
  {
    assert forall e :: e in CMD_INFO <==> exists j :: 0 <= j < |CMD_INFO| && e == CMD_INFO[j];
    if !Supported(netFun, cmd) {
      forall j | 0 <= j < |CMD_INFO| ensures CMD_INFO[j].netFun != netFun || CMD_INFO[j].cmd != cmd {
        assert CMD_INFO[j] in CMD_INFO;
      }
      NotInTable(netFun, cmd, req, provision);
    }
  }

  /** Every response is 3 to 18 bytes long and echoes the command byte. */
  lemma ResponseShape(r: seq<byte>, provision: Provision)
    requires 2 <= |r|
    ensures 3 <= |Respond(r, provision).data| <= 18
    ensures Respond(r, provision).data[1] == r[1]
  {
  }

  /**
    The response header is the request's first byte with bit 2 set, exactly for
    the even (request) network functions; there it undoes nothing but that bit.
   */
  lemma ResponseHeaderSetsResponseBit(b: byte)
    ensures ResponseHeader(Lun(b), NetFun(b)) == b | 0x04 <==> NetFun(b) & 1 == 0
    ensures Lun(ResponseHeader(Lun(b), NetFun(b))) == Lun(b)
  {
  }

  /** Only an accepted "set security mode" changes the saved environment, and to a legal mode. */
  lemma ProvisionChangesOnlyBySet(r: seq<byte>, provision: Provision)
    requires 2 <= |r|
    ensures Respond(r, provision).provision ==
            if |r| == 3 && r[0] == 0xC0 && r[1] == CMD_INTL_OEM_SET_SEC_MODE && LegalMode(r[2])
            then Some(r[2] as int) else provision
  {
    var b := r[0];
    assert Lun(b) == 0 && NetFun(b) == NETFN_INTEL_OEM <==> b == 0xC0;
    assert r[2..] != [] ==> r[2..][0] == r[2];
  }

  /** A security mode that was set is the one that is read back, until the next accepted set. */
  lemma SetModeThenGetMode(mode: byte, provision: Provision)
    ensures var setReply := Respond([0xC0, CMD_INTL_OEM_SET_SEC_MODE, mode], provision);
            var getReply := Respond([0xC0, CMD_INTL_OEM_GET_SEC_MODE], setReply.provision);
            if LegalMode(mode)
            then setReply.data == [0xC4, 0xB4, IPMI_CC_OK] && getReply.data == [0xC4, 0xB3, IPMI_CC_OK, mode, 0x00]
            else setReply.data == [0xC4, 0xB4, IPMI_CC_INVALID_DATA_FIELD] && setReply.provision == provision
  {
    hide Respond, LegalMode;
    var r := [0xC0, CMD_INTL_OEM_SET_SEC_MODE, mode];
    LegalModesInBytes(mode);
    RespondInBytes(r, provision);
    RespondInBytes([0xC0, CMD_INTL_OEM_GET_SEC_MODE], Respond(r, provision).provision);
  }
}
