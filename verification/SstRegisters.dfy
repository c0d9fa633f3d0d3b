/**
  The register backend of one CPU: bounds-checked reads and writes over a bus
  that may fail at any transaction, a cache of read-only registers, and the two
  loops over register instances.
 */
module SstRegisters {
  import opened Options
  import opened PeciBus
  import opened WakeOnPeci
  import opened SstModel

  datatype SstError = InvalidInstance | PeciError

  type Outcome = Result<bv64, SstError>

  /** The header that validInstances takes for an instance that is not there: 32 ones in a register of 64 bits. */
  const INVALID_READ: bv64 := 0x0000_0000_FFFF_FFFF

  /** The cache only ever grows. */
  predicate Extends(now: map<Key, bv64>, was: map<Key, bv64>) {
    forall k | k in was :: k in now && now[k] == was[k]
  }

  /**
    `valid` is the ascending list of the instances that are there: by the bus's
    final answers `replies`, a "no such instance" or the header 0x00000000FFFFFFFF
    means absent, and nothing else does.
   */
  predicate ProbedValid(mem: Memory, f: Space, valid: seq<nat>, replies: seq<Reply>) {
    && |replies| == f.instances && Ascending(valid)
    && (forall i | i in valid :: i < f.instances)
    && forall i | 0 <= i < f.instances :: Probed(mem, f, i, replies[i], i in valid)
  }

  predicate Probed(mem: Memory, f: Space, i: nat, reply: Reply, valid: bool) {
    var header := Load(mem, f.offset + f.size * i);
    if valid then reply == Reply(PeciSuccess, 0x40) && header != 0x0000_0000_FFFF_FFFF
    else reply == Reply(PeciSuccess, 0x90) || (reply == Reply(PeciSuccess, 0x40) && header == 0x0000_0000_FFFF_FFFF)
  }

  /** So an instance whose header reads as 64 ones, as unbacked memory does, is listed as being there. */
  lemma AllOnesHeaderIsListed(mem: Memory, f: Space, valid: seq<nat>, replies: seq<Reply>, i: nat)
    requires ProbedValid(mem, f, valid, replies) && i < f.instances && Ok(replies[i])
    ensures SstModel.Header(mem, f, i) == 0xFFFF_FFFF_FFFF_FFFF ==> i in valid
    ensures Address(f, i, 0) !in mem ==> i in valid
  {
    assert Probed(mem, f, i, replies[i], i in valid);
  }

  class SstRegisterSet {
    const space: Space
    const bus: Bus
    const peci: WakeOnPeciManager
    var cachedRegs: map<Key, bv64>
    /** The keys fetched from the bus by cached reads, in order. */
    ghost var fetched: seq<Key>

    /** Every cached key has been fetched, and fetched once. */
    ghost predicate Valid()
      reads this, bus, peci
    {
      && peci.bus == bus && peci.Valid()
      && Distinct(fetched) && forall k :: k in fetched <==> k in cachedRegs
    }

    ghost predicate CacheOk()
      reads this, bus
    {
      Coherent(cachedRegs, bus.mem, space)
    }

    /** A failure has its cause: the instance is out of range, or the last bus transaction since `was` failed. */
    ghost predicate Justified(e: SstError, instance: nat, was: nat)
      reads bus
    {
      match e
      case InvalidInstance => instance >= space.instances
      case PeciError => BusFailed(was)
    }

    ghost predicate BusFailed(was: nat)
      reads bus
    {
      bus.clock > was && bus.outcome(bus.clock - 1) != Reply(PeciSuccess, 0x40)
    }

    constructor (space: Space, bus: Bus, peci: WakeOnPeciManager)
      requires peci.bus == bus && peci.Valid()
      ensures Valid() && CacheOk() && this.space == space && this.bus == bus && this.peci == peci
    {
      this.space, this.bus, this.peci := space, bus, peci;
      cachedRegs, fetched := map[], [];
    }

    method ReadNoThrow(instance: nat, offset: nat) returns (woke: bool, r: Reply, data: bv64)
      requires Valid()
      modifies peci, bus`clock, bus`woken
      ensures Valid()
      ensures woke && Ok(r) ==> data == Reg(bus.mem, space, instance, offset)
      ensures bus.clock > old(bus.clock)
      ensures if woke then r == bus.outcome(bus.clock - 1) else !Ok(bus.outcome(bus.clock - 1))
    {
      woke, r, data := peci.ReadQword(offset + space.offset + space.size * instance);
    }

    method Read(instance: nat, offset: nat) returns (res: Outcome)
      requires Valid()
      modifies peci, bus`clock, bus`woken
      ensures Valid()
      ensures res.Success? ==> instance < space.instances && res.value == Reg(bus.mem, space, instance, offset)
      ensures res == Failure(InvalidInstance) <==> instance >= space.instances
      ensures res.Failure? ==> Justified(res.error, instance, old(bus.clock))
      ensures bus.clock >= old(bus.clock)
    {
      if instance >= space.instances {
        return Failure(InvalidInstance);
      }
      var woke, r, data := ReadNoThrow(instance, offset);
      if !woke || !Ok(r) {
        return Failure(PeciError);
      }
      return Success(data);
    }

    method Write(instance: nat, offset: nat, data: bv64) returns (ok: bool)
      requires Valid()
      modifies peci, bus
      ensures Valid()
      ensures ok ==> instance < space.instances
      ensures !ok ==> instance >= space.instances || BusFailed(old(bus.clock))
      ensures bus.clock >= old(bus.clock)
      ensures bus.mem == if ok then old(bus.mem)[Address(space, instance, offset) := data] else old(bus.mem)
    {
      if instance >= space.instances {
        return false;
      }
      var woke, r := peci.WriteQword(offset + space.offset + space.size * instance, data);
      ok := woke && Ok(r);
    }

    /**
      A hit costs no bus transaction; a miss fetches the key and caches it; a
      throwing read leaves the cache as it was.
     */
    method CachedRead(instance: nat, offset: nat) returns (res: Outcome)
      requires Valid()
      modifies this, peci, bus`clock, bus`woken
      ensures Valid()
      ensures var key := (instance, offset);
              if key in old(cachedRegs) then
                res == Success(old(cachedRegs)[key]) && cachedRegs == old(cachedRegs) && fetched == old(fetched)
                && bus.clock == old(bus.clock)
              else if res.Success? then
                cachedRegs == old(cachedRegs)[key := res.value] && fetched == old(fetched) + [key]
                && res.value == Reg(bus.mem, space, instance, offset)
              else
                cachedRegs == old(cachedRegs) && fetched == old(fetched)
      ensures res.Failure? ==> Justified(res.error, instance, old(bus.clock))
      ensures bus.clock >= old(bus.clock)
      ensures old(CacheOk()) ==> CacheOk()
      ensures old(CacheOk()) && res.Success? ==> res.value == Reg(bus.mem, space, instance, offset)
    {
      var key := (instance, offset);
      if key in cachedRegs {
        return Success(cachedRegs[key]);
      }
      res := Read(instance, offset);
      if res.Failure? {
        return;
      }
      cachedRegs := cachedRegs[key := res.value];
      fetched := fetched + [key];
    }

    // ------------------------------------------------------------------ accessors

    method Header(instance: nat) returns (res: Outcome)
      requires Valid()
      modifies this, peci, bus`clock, bus`woken
      ensures Valid() && (old(CacheOk()) ==> CacheOk()) && Extends(cachedRegs, old(cachedRegs)) && bus.clock >= old(bus.clock)
      ensures res.Failure? ==> Justified(res.error, instance, old(bus.clock))
      ensures old(CacheOk()) && res.Success? ==> res.value == SstModel.Header(bus.mem, space, instance)
      ensures forall k | k in cachedRegs && k !in old(cachedRegs) :: k.1 == 0
    {
      res := CachedRead(instance, 0);
    }

    method PpOffset(instance: nat) returns (res: Result<nat, SstError>)
      requires Valid()
      modifies this, peci, bus`clock, bus`woken
      ensures Valid() && (old(CacheOk()) ==> CacheOk()) && Extends(cachedRegs, old(cachedRegs)) && bus.clock >= old(bus.clock)
      ensures res.Failure? ==> Justified(res.error, instance, old(bus.clock))
      ensures old(CacheOk()) && res.Success? ==> res.value == SstModel.PpOffset(bus.mem, space, instance)
      ensures forall k | k in cachedRegs && k !in old(cachedRegs) :: k.1 == 0
    {
      var header := Header(instance);
      match header {
        case Success(v) => res := Success(Mask(v, 24, 8) * 8);
        case Failure(e) => res := Failure(e);
      }
    }

    method PpOffset0(instance: nat) returns (res: Outcome)
      requires Valid() && CacheOk()
      modifies this, peci, bus`clock, bus`woken
      ensures Valid() && CacheOk() && Extends(cachedRegs, old(cachedRegs)) && bus.clock >= old(bus.clock)
      ensures res.Failure? ==> Justified(res.error, instance, old(bus.clock))
      ensures res.Success? ==> res.value == SstModel.PpOffset0(bus.mem, space, instance)
    {
      hide Mask;
      var pp := PpOffset(instance);
      if pp.Failure? {
        return Failure(pp.error);
      }
      res := CachedRead(instance, pp.value + 8);
    }

    method PpOffset1(instance: nat) returns (res: Outcome)
      requires Valid() && CacheOk()
      modifies this, peci, bus`clock, bus`woken
      ensures Valid() && CacheOk() && Extends(cachedRegs, old(cachedRegs)) && bus.clock >= old(bus.clock)
      ensures res.Failure? ==> Justified(res.error, instance, old(bus.clock))
      ensures res.Success? ==> res.value == SstModel.PpOffset1(bus.mem, space, instance)
    {
      hide Mask;
      var pp := PpOffset(instance);
      if pp.Failure? {
        return Failure(pp.error);
      }
      res := CachedRead(instance, pp.value + 8 * 2);
    }

    method PpLevelOffset(instance: nat, level: nat) returns (res: Result<nat, SstError>)
      requires Valid() && CacheOk()
      modifies this, peci, bus`clock, bus`woken
      ensures Valid() && CacheOk() && Extends(cachedRegs, old(cachedRegs)) && bus.clock >= old(bus.clock)
      ensures res.Failure? ==> Justified(res.error, instance, old(bus.clock))
      ensures res.Success? ==> res.value == SstModel.PpLevelOffset(bus.mem, space, instance, level)
    {
      hide Mask;
      var offsets := PpOffset1(instance);
      if offsets.Failure? {
        return Failure(offsets.error);
      }
      var pp := PpOffset(instance);
      if pp.Failure? {
        return pp;
      }
      return Success(pp.value + Mask(offsets.value, level * 8, 8) * 8);
    }

    /** bfInfo0 (`word` 0) and bfInfo1 (`word` 1). */
    method BfInfo(instance: nat, level: nat, word: nat) returns (res: Outcome)
      requires Valid() && CacheOk() && word <= 1
      modifies this, peci, bus`clock, bus`woken
      ensures Valid() && CacheOk() && Extends(cachedRegs, old(cachedRegs)) && bus.clock >= old(bus.clock)
      ensures res.Failure? ==> Justified(res.error, instance, old(bus.clock))
      ensures res.Success? ==>
                res.value == Reg(bus.mem, space, instance, BfInfoOffset(bus.mem, space, instance, level) + 8 * word)
    {
      hide Mask;
      var offsets := PpOffset0(instance);
      if offsets.Failure? {
        return offsets;
      }
      var bf := Mask(offsets.value, 8, 8);
      var base := PpLevelOffset(instance, level);
      if base.Failure? {
        return Failure(base.error);
      }
      res := CachedRead(instance, base.value + bf * 8 + 8 * word);
    }

    method TfInfo0(instance: nat, level: nat) returns (res: Outcome)
      requires Valid() && CacheOk()
      modifies this, peci, bus`clock, bus`woken
      ensures Valid() && CacheOk() && Extends(cachedRegs, old(cachedRegs)) && bus.clock >= old(bus.clock)
      ensures res.Failure? ==> Justified(res.error, instance, old(bus.clock))
      ensures res.Success? ==>
                res.value == Reg(bus.mem, space, instance, TfInfoOffset(bus.mem, space, instance, level))
    {
      hide Mask;
      var offsets := PpOffset0(instance);
      if offsets.Failure? {
        return offsets;
      }
      var tf := Mask(offsets.value, 16, 8);
      var base := PpLevelOffset(instance, level);
      if base.Failure? {
        return Failure(base.error);
      }
      res := CachedRead(instance, base.value + tf * 8);
    }

    /** ppInfo1, ppInfo2, ...: register `word` of a level, never cached. */
    method PpInfo(instance: nat, level: nat, word: nat) returns (res: Outcome)
      requires Valid() && CacheOk()
      modifies this, peci, bus`clock, bus`woken
      ensures Valid() && CacheOk() && Extends(cachedRegs, old(cachedRegs)) && bus.clock >= old(bus.clock)
      ensures res.Failure? ==> Justified(res.error, instance, old(bus.clock))
      ensures res.Success? ==>
                res.value == Reg(bus.mem, space, instance, SstModel.PpLevelOffset(bus.mem, space, instance, level) + 8 * word)
    {
      hide Mask;
      var base := PpLevelOffset(instance, level);
      if base.Failure? {
        return Failure(base.error);
      }
      res := Read(instance, base.value + 8 * word);
    }

    method PpControl(instance: nat) returns (res: Outcome)
      requires Valid()
      modifies this, peci, bus`clock, bus`woken
      ensures Valid() && (old(CacheOk()) ==> CacheOk()) && Extends(cachedRegs, old(cachedRegs)) && bus.clock >= old(bus.clock)
      ensures res.Failure? ==> Justified(res.error, instance, old(bus.clock))
      ensures old(CacheOk()) && res.Success? ==> res.value == Reg(bus.mem, space, instance, ControlOffset(bus.mem, space, instance))
      ensures forall k | k in cachedRegs && k !in old(cachedRegs) :: k.1 == 0
    {
      hide Mask;
      var pp := PpOffset(instance);
      if pp.Failure? {
        return Failure(pp.error);
      }
      res := Read(instance, pp.value + 8 * 3);
    }

    method PpStatus(instance: nat) returns (res: Outcome)
      requires Valid()
      modifies this, peci, bus`clock, bus`woken
      ensures Valid() && (old(CacheOk()) ==> CacheOk()) && Extends(cachedRegs, old(cachedRegs)) && bus.clock >= old(bus.clock)
      ensures res.Failure? ==> Justified(res.error, instance, old(bus.clock))
      ensures old(CacheOk()) && res.Success? ==> res.value == Reg(bus.mem, space, instance, StatusOffset(bus.mem, space, instance))
      ensures forall k | k in cachedRegs && k !in old(cachedRegs) :: k.1 == 0
    {
      hide Mask;
      var pp := PpOffset(instance);
      if pp.Failure? {
        return Failure(pp.error);
      }
      res := Read(instance, pp.value + 8 * 4);
    }

    /** `validInstances`: any failure other than "no such instance" throws. */
    method ValidInstances() returns (res: Result<seq<nat>, SstError>, ghost replies: seq<Reply>)
      requires Valid()
      modifies peci, bus`clock, bus`woken
      ensures Valid()
      ensures res.Success? ==> ProbedValid(bus.mem, space, res.value, replies)
      ensures res.Failure? ==> BusFailed(old(bus.clock))
      ensures bus.clock >= old(bus.clock)
    {
      var valid: seq<nat> := [];
      replies := [];
      var i := 0;
      while i < space.instances
        invariant i <= space.instances && |replies| == i && bus.clock >= old(bus.clock)
        invariant Valid()
        invariant Ascending(valid) && forall j | j in valid :: j < i
        invariant forall j | 0 <= j < i :: Probed(bus.mem, space, j, replies[j], j in valid)
      {
        var woke, r, data := ReadNoThrow(i, 0);
        replies := replies + [r];
        if !woke {
          return Failure(PeciError), replies;
        }
        if r.status == PeciSuccess && r.cc == CC_INVALID_INSTANCE {
          i := i + 1;
          continue;
        }
        if !Ok(r) {
          return Failure(PeciError), replies;
        }
        if data == INVALID_READ {
          i := i + 1;
          continue;
        }
        assert forall k | 0 <= k < |valid| :: valid[k] in valid;
        valid := valid + [i];
        i := i + 1;
      }
      return Success(valid), replies;
    }
  }
}
