/**
  A PECI bus whose every transaction may succeed, fail or time out: the outcome
  of the n-th transaction is an arbitrary function of n. A transaction that does
  not complete changes nothing.
 */
module PeciBus {

  datatype Status = PeciSuccess | PeciTimeout | PeciOther

  datatype Reply = Reply(status: Status, cc: bv8)

  const CC_SUCCESS: bv8 := 0x40
  const CC_UNAVAIL_RESOURCE: bv8 := 0x82
  const CC_INVALID_INSTANCE: bv8 := 0x90

  /** checkPECIStatus */
  predicate Ok(r: Reply) { r.status == PeciSuccess && r.cc == CC_SUCCESS }

  /** Eight-byte registers by address; an address that is not backed reads as all ones. */
  type Memory = map<nat, bv64>

  function Load(mem: Memory, address: nat): bv64 {
    if address in mem then mem[address] else 0xFFFF_FFFF_FFFF_FFFF
  }

  class Bus {
    const outcome: nat -> Reply
    const dieMask: set<nat>
    var clock: nat
    var mem: Memory
    /** The domains whose Wake-on-PECI mode bit has been set and not cleared again. */
    var woken: set<nat>

    constructor (outcome: nat -> Reply, dieMask: set<nat>, mem: Memory, woken: set<nat>)
      ensures this.outcome == outcome && this.dieMask == dieMask
      ensures this.mem == mem && this.woken == woken
    {
      this.outcome, this.dieMask := outcome, dieMask;
      this.clock, this.mem, this.woken := 0, mem, woken;
    }

    method WriteDomain(domain: nat, enable: bool) returns (r: Reply)
      modifies this`clock, this`woken
      ensures r == outcome(old(clock)) && clock == old(clock) + 1
      ensures woken == if !Ok(r) then old(woken) else if enable then old(woken) + {domain} else old(woken) - {domain}
    {
      r := outcome(clock);
      clock := clock + 1;
      if Ok(r) {
        woken := if enable then woken + {domain} else woken - {domain};
      }
    }

    method ReadDieMask() returns (r: Reply, mask: set<nat>)
      modifies this`clock
      ensures r == outcome(old(clock)) && clock == old(clock) + 1
      ensures Ok(r) ==> mask == dieMask
    {
      r := outcome(clock);
      clock := clock + 1;
      mask := if Ok(r) then dieMask else {};
    }

    method ReadQword(address: nat) returns (r: Reply, data: bv64)
      modifies this`clock
      ensures r == outcome(old(clock)) && clock == old(clock) + 1
      ensures Ok(r) ==> data == Load(mem, address)
    {
      r := outcome(clock);
      clock := clock + 1;
      data := if Ok(r) then Load(mem, address) else 0;
    }

    method WriteQword(address: nat, data: bv64) returns (r: Reply)
      modifies this`clock, this`mem
      ensures r == outcome(old(clock)) && clock == old(clock) + 1
      ensures mem == if Ok(r) then old(mem)[address := data] else old(mem)
    {
      r := outcome(clock);
      clock := clock + 1;
      if Ok(r) {
        mem := mem[address := data];
      }
    }
  }
}
