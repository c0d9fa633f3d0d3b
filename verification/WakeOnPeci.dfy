/**
  Waking a CPU for PECI access: a flag that has to remember, across partial
  failures and retries, whether this manager may have left any domain awake.
 */
module WakeOnPeci {
  import opened Options
  import opened PeciBus

  const MAX_DOMAINS := 32
  const MAX_TRIES := 6

  /** The domains of the mask below `n`. */
  function Below(mask: set<nat>, n: nat): set<nat> { set d | d in mask && d < n }

  /** The manager's flag and the domains that are awake. */
  datatype Wake = Wake(flag: bool, awake: set<nat>)

  /** One call of `setWakeOnPECI`: done, or given up after a prefix of the die mask. */
  ghost predicate Switch(w: Wake, v: Wake, mask: set<nat>, enable: bool, ok: bool) {
    if enable == w.flag then ok && v == w
    else exists n: nat :: SwitchPrefix(w, v, mask, enable, ok, n)
  }

  predicate SwitchPrefix(w: Wake, v: Wake, mask: set<nat>, enable: bool, ok: bool, n: nat) {
    && (ok ==> Below(mask, n) == mask)
    && v.awake == (if enable then w.awake + Below(mask, n) else w.awake - Below(mask, n))
    && v.flag == (if enable then Below(mask, n) != {} else !ok)
  }

  /**
    Over every run of calls, however they fail and whatever is awake at the
    start: while the flag is clear nothing is awake that was not awake before,
    and no domain outside the die mask is ever touched. A disable with the flag
    set that succeeds leaves the mask asleep.
   */
  lemma {:induction false} NothingForgotten(states: seq<Wake>, mask: set<nat>, enables: seq<bool>, oks: seq<bool>, i: nat)
    requires |states| == |enables| + 1 == |oks| + 1 && i < |states|
    requires !states[0].flag
    requires forall k | 0 <= k < |enables| :: Switch(states[k], states[k + 1], mask, enables[k], oks[k])
    ensures !states[i].flag ==> states[i].awake <= states[0].awake
    ensures states[i].awake <= states[0].awake + mask
    ensures states[i].awake - mask == states[0].awake - mask
    ensures i > 0 && !enables[i - 1] && oks[i - 1] ==>
              !states[i].flag && (states[i - 1].flag ==> states[i].awake !! mask)
  {
    if i > 0 {
      NothingForgotten(states, mask, enables, oks, i - 1);
      assert Switch(states[i - 1], states[i], mask, enables[i - 1], oks[i - 1]);
    }
  }

  class WakeOnPeciManager {
    const bus: Bus
    const wakeAllowed: bool
    var peciWoken: bool
    /** The die mask of this CPU, once it has been read. */
    var dieMasks: Option<set<nat>>
    /** What was awake when the manager came into being. */
    ghost const awakeBefore: set<nat>

    ghost function View(): Wake
      reads this, bus
    {
      Wake(peciWoken, bus.woken)
    }

    ghost predicate Valid()
      reads this, bus
    {
      && (forall d | d in bus.dieMask :: d < 32)
      && (dieMasks.Some? ==> dieMasks.value == bus.dieMask)
      && (peciWoken ==> dieMasks.Some?)
      && NothingLeftAwake()
    }

    /** Only the die mask is woken, and a clear flag means that none of it is left awake by this manager. */
    ghost predicate NothingLeftAwake()
      reads this, bus
    {
      bus.woken <= awakeBefore + (if peciWoken then bus.dieMask else {})
    }

    constructor (bus: Bus, wakeAllowed: bool)
      requires forall d | d in bus.dieMask :: d < 32
      ensures awakeBefore == bus.woken
      ensures Valid() && this.bus == bus && this.wakeAllowed == wakeAllowed && !peciWoken
    {
      this.bus, this.wakeAllowed := bus, wakeAllowed;
      peciWoken, dieMasks := false, None;
      awakeBefore := bus.woken;
    }

    /**
      One domain: retried while the bus times out, `tries` writes in all. Only
      the last reply counts, and only it can have taken effect.
     */
    method WriteWithRetry(domain: nat, enable: bool) returns (r: Reply, tries: nat)
      modifies bus`clock, bus`woken
      ensures 1 <= tries <= 6 && bus.clock == old(bus.clock) + tries
      ensures forall k | old(bus.clock) <= k < bus.clock - 1 :: bus.outcome(k).status == PeciTimeout
      ensures r == bus.outcome(bus.clock - 1)
      ensures r.status == PeciTimeout ==> tries == 6
      ensures bus.woken == if !Ok(r) then old(bus.woken)
                           else if enable then old(bus.woken) + {domain} else old(bus.woken) - {domain}
    {
      r := bus.WriteDomain(domain, enable);
      tries := 1;
      while r.status == PeciTimeout && tries <= 5
        invariant 1 <= tries <= MAX_TRIES && bus.clock == old(bus.clock) + tries
        invariant forall k | old(bus.clock) <= k < bus.clock - 1 :: bus.outcome(k).status == PeciTimeout
        invariant r == bus.outcome(bus.clock - 1)
        invariant bus.woken == if !Ok(r) then old(bus.woken)
                               else if enable then old(bus.woken) + {domain} else old(bus.woken) - {domain}
      {
        r := bus.WriteDomain(domain, enable);
        tries := tries + 1;
      }
    }

    /**
      `setWakeOnPECI`; `ok` is false where the source throws. On the way, either
      a prefix of the die mask has been switched or, on success, all of it.
     */
    method SetWakeOnPeci(enable: bool) returns (ok: bool)
      requires Valid()
      modifies this, bus`clock, bus`woken
      ensures Valid()
      ensures Switch(old(View()), View(), bus.dieMask, enable, ok)
      ensures enable == old(peciWoken) ==> bus.clock == old(bus.clock)
      ensures old(bus.clock) <= bus.clock <= old(bus.clock) + 1 + MAX_TRIES * MAX_DOMAINS
      ensures !ok ==> bus.clock > old(bus.clock) && !Ok(bus.outcome(bus.clock - 1))
    {
      if enable == peciWoken {
        return true;
      }
      if dieMasks.None? {
        var r, mask := bus.ReadDieMask();
        if !Ok(r) {
          assert SwitchPrefix(old(View()), View(), bus.dieMask, enable, false, 0);
          return false;
        }
        dieMasks := Some(mask);
      }
      ghost var start := bus.clock;
      var dieMask := dieMasks.value;
      var i := 0;
      while i < MAX_DOMAINS
        invariant i <= MAX_DOMAINS
        invariant dieMasks == Some(bus.dieMask) && dieMask == bus.dieMask
        invariant bus.woken == if enable then old(bus.woken) + Below(dieMask, i) else old(bus.woken) - Below(dieMask, i)
        invariant peciWoken == if enable then Below(dieMask, i) != {} else true
        invariant start <= bus.clock <= start + MAX_TRIES * i
      {
        if i in dieMask {
          var r, tries := WriteWithRetry(i, enable);
          if !Ok(r) {
            assert SwitchPrefix(old(View()), View(), dieMask, enable, false, i);
            return false;
          }
          if enable {
            peciWoken := true;
          }
          assert Below(dieMask, i + 1) == Below(dieMask, i) + {i};
        } else {
          assert Below(dieMask, i + 1) == Below(dieMask, i);
        }
        i := i + 1;
      }
      assert Below(dieMask, MAX_DOMAINS) == dieMask;
      if !enable {
        peciWoken := false;
      }
      assert SwitchPrefix(old(View()), View(), dieMask, enable, true, MAX_DOMAINS);
      return true;
    }

    /** The first transaction of an operation found the device asleep, and waking it is allowed. */
    ghost predicate Wakes(first: nat)
      reads this
    {
      wakeAllowed && bus.outcome(first) == Reply(PeciSuccess, 0x82)
    }

    /**
      What the retry does beyond the operation itself: nothing unless the device
      was asleep; else it is woken, all of its die mask if none was awake
      before, and the operation is repeated as the last transaction.
     */
    twostate predicate Retried(woke: bool, r: Reply)
      reads this, bus
    {
      && bus.clock > old(bus.clock)
      && (if woke then r == bus.outcome(bus.clock - 1) else !Ok(bus.outcome(bus.clock - 1)))
      && (!Wakes(old(bus.clock)) ==>
            woke && bus.clock == old(bus.clock) + 1 && bus.woken == old(bus.woken) && peciWoken == old(peciWoken))
      && (Wakes(old(bus.clock)) && woke ==>
            bus.clock >= old(bus.clock) + 2 && (old(peciWoken) || bus.woken == old(bus.woken) + bus.dieMask))
    }

    /** The destructor: nothing is left awake by this manager unless its last transaction failed. */
    method Destroy()
      requires Valid()
      modifies this, bus`clock, bus`woken
      ensures Valid()
      ensures bus.woken <= awakeBefore || (bus.clock > old(bus.clock) && !Ok(bus.outcome(bus.clock - 1)))
    {
      if peciWoken {
        var _ := SetWakeOnPeci(false);
      }
    }

    /**
      `peciOpWithWakeRetry` around an MMIO read: a device that is asleep is woken
      and asked once more; `woke` is false where waking it throws.
     */
    method ReadQword(address: nat) returns (woke: bool, r: Reply, data: bv64)
      requires Valid()
      modifies this, bus`clock, bus`woken
      ensures Valid()
      ensures woke && Ok(r) ==> data == Load(bus.mem, address)
      ensures Retried(woke, r)
    {
      woke := true;
      r, data := bus.ReadQword(address);
      if wakeAllowed && r.status == PeciSuccess && r.cc == CC_UNAVAIL_RESOURCE {
        woke := SetWakeOnPeci(true);
        if woke {
          r, data := bus.ReadQword(address);
        }
      }
    }

    /** The same around an MMIO write, which takes effect at most once. */
    method WriteQword(address: nat, data: bv64) returns (woke: bool, r: Reply)
      requires Valid()
      modifies this, bus
      ensures Valid()
      ensures bus.mem == if woke && Ok(r) then old(bus.mem)[address := data] else old(bus.mem)
      ensures Retried(woke, r)
    {
      woke := true;
      r := bus.WriteQword(address, data);
      if wakeAllowed && r.status == PeciSuccess && r.cc == CC_UNAVAIL_RESOURCE {
        woke := SetWakeOnPeci(true);
        if woke {
          r := bus.WriteQword(address, data);
        }
      }
    }
  }
}
