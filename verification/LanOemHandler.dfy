/** The handler behind the host name parameter, proved to take the steps of LanHostname.dfy. */
module LanOemHandler {
  import opened LanHostname

  class LanOem {
    const blockData: array<char>
    var hostname: string

    ghost predicate Valid() { blockData.Length == HOSTNAME_LENGTH }

    ghost function View(): (s: Lan)
      requires Valid()
      reads this, blockData
      ensures s.Valid()
    {
      Lan(blockData[..], hostname)
    }

    constructor (hostname: string)
      ensures Valid() && fresh(blockData) && View() == Lan(Zeroes(HOSTNAME_LENGTH), hostname)
    {
      this.hostname := hostname;
      blockData := new char[HOSTNAME_LENGTH](_ => NUL);
    }

    method Fill()
      requires Valid()
      modifies blockData
      ensures blockData[..] == Zeroes(HOSTNAME_LENGTH)
    {
      var i := 0;
      while i < HOSTNAME_LENGTH
        invariant i <= HOSTNAME_LENGTH && forall j | 0 <= j < i :: blockData[j] == NUL
      {
        blockData[i] := NUL;
        i := i + 1;
      }
    }

    method CopyIn(data: string, at: nat)
      requires Valid() && at + |data| <= HOSTNAME_LENGTH
      modifies blockData
      ensures blockData[..] == Overlay(old(blockData[..]), at, data)
    {
      var i := 0;
      while i < |data|
        invariant i <= |data|
        invariant blockData[..] == Overlay(old(blockData[..]), at, data[..i])
      {
        blockData[at + i] := data[i];
        i := i + 1;
      }
      assert data[..i] == data;
    }

    method SetLanOem(parameter: nat, payload: string) returns (cc: Cc)
      requires Valid()
      modifies this, blockData
      ensures Valid() && (View(), cc) == LanHostname.SetLanOem(old(View()), parameter, payload)
    {
      if parameter != INTEL_HOSTNAME_CONFIG {
        return ParamNotSupported;
      }
      if |payload| < 2 {
        return ReqDataLenInvalid;
      }
      var block, complete, data := payload[0] as nat, payload[1] as nat, payload[2..];
      if |data| > HOSTNAME_BLOCK || (complete == 0 && |data| < HOSTNAME_BLOCK) {
        return ReqDataLenInvalid;
      }
      if !(block > 0 && block < 5) || (complete != 0 && complete != 1) {
        return InvalidFieldRequest;
      }
      if block == 1 {
        Fill();
      }
      CopyIn(data, (block - 1) * HOSTNAME_BLOCK);
      if complete != 0 {
        blockData[HOSTNAME_LENGTH - 1] := NUL;
        var newHostname := blockData[..];
        if FirstInvalid(newHostname) != FirstNull(newHostname) {
          return Unprintable;
        }
        hostname := newHostname;
      }
      return Success;
    }

    /** The reply to a successful request is the revision byte and one block. */
    method GetLanOem(parameter: nat, set_: nat, block: nat) returns (cc: Cc, message: string)
      ensures cc == if parameter != 0xC7 then ParamNotSupported
                    else if set_ != 0 || !(1 <= block <= 4) then InvalidFieldRequest else Success
      ensures cc == Success ==> message == ['\U{11}'] + GetBlock(hostname, block)
    {
      message := [CURRENT_REVISION];
      if parameter != INTEL_HOSTNAME_CONFIG {
        return ParamNotSupported, message;
      }
      if set_ != 0 {
        return InvalidFieldRequest, message;
      }
      if block < 1 || block > 4 {
        return InvalidFieldRequest, message;
      }
      var buf := new char[HOSTNAME_BLOCK](_ => NUL);
      var head := (block - 1) * HOSTNAME_BLOCK;
      if head < |hostname| {
        var numToCopy := |hostname| - head;
        numToCopy := if HOSTNAME_BLOCK < numToCopy then HOSTNAME_BLOCK else numToCopy;
        var i := 0;
        while i < numToCopy
          invariant i <= numToCopy
          invariant buf[..i] == hostname[head..head + i]
          invariant forall j | i <= j < HOSTNAME_BLOCK :: buf[j] == NUL
        {
          buf[i] := hostname[head + i];
          i := i + 1;
        }
      }
      return Success, message + buf[..];
    }
  }
}
