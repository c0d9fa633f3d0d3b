/** The operations of the TPMI backend that walk every valid register instance. */
module SstTpmi {
  import opened Options
  import opened PeciBus
  import opened FieldUpdate
  import opened SstModel
  import opened SstRegisters

  /** The addresses of the control registers of `instances`. */
  function Controls(mem: Memory, f: Space, instances: seq<nat>): seq<nat> {
    seq(|instances|, k requires 0 <= k < |instances| => Address(f, instances[k], ControlOffset(mem, f, instances[k])))
  }

  /** The control and status registers of the instances that are there lie inside their own part of the feature. */
  predicate RegistersInside(mem: Memory, f: Space, there: seq<nat>) {
    forall i | i in there :: StatusOffset(mem, f, i) + 8 <= f.size
  }

  /** No cached register is the control register of an instance that is there. */
  predicate ControlsUncached(cache: map<Key, bv64>, mem: Memory, f: Space, there: seq<nat>) {
    forall k, i | k in cache && i in there ::
      Address(f, k.0, k.1) != Address(f, i, ControlOffset(mem, f, i))
  }

  lemma EarlierBelow(size: nat, i: nat, a: nat, j: nat, b: nat)
    requires i < j && a < size
    ensures a + size * i < b + size * j
  {
    var d := j - i - 1;
    assert size * j == size * i + size * (d + 1);
    assert size * (d + 1) == size * d + size;
    assert size * d >= 0;
  }

  /** Registers of different instances that lie inside the feature size have different addresses. */
  lemma InstancesApart(f: Space, i: nat, a: nat, j: nat, b: nat)
    requires a < f.size && b < f.size && (i != j || a != b)
    ensures Address(f, i, a) != Address(f, j, b)
  {
    if i < j {
      EarlierBelow(f.size, i, a, j, b);
    } else if j < i {
      EarlierBelow(f.size, j, b, i, a);
    }
  }

  /** A control register lies behind the header, inside the instance. */
  lemma ControlInside(mem: Memory, f: Space, there: seq<nat>, i: nat)
    requires RegistersInside(mem, f, there) && i in there
    ensures 0 < ControlOffset(mem, f, i) < f.size
  {
    hide Mask;
    assert StatusOffset(mem, f, i) + 8 <= f.size;
  }

  /** No header has the address of a control register. */
  lemma HeadersApart(mem: Memory, f: Space, there: seq<nat>, i: nat, j: nat)
    requires RegistersInside(mem, f, there) && i in there
    ensures Address(f, i, ControlOffset(mem, f, i)) != Address(f, j, 0)
  {
    hide Address, ControlOffset;
    ControlInside(mem, f, there, i);
    InstancesApart(f, i, ControlOffset(mem, f, i), j, 0);
  }

  /** Updating control registers moves no header, so every register stays where it was. */
  lemma HeadersStay(mem: Memory, f: Space, there: seq<nat>, instances: seq<nat>, m: bv64, v: bv64, i: nat)
    requires RegistersInside(mem, f, there) && forall j | j in instances :: j in there
    ensures Header(UpdateAll(mem, Controls(mem, f, instances), m, v), f, i) == Header(mem, f, i)
  {
    hide RegistersInside, Address, ControlOffset, UpdateAll;
    var controls := Controls(mem, f, instances);
    UpdateAllAt(mem, controls, m, v, Address(f, i, 0));
    forall k | 0 <= k < |controls| ensures controls[k] != Address(f, i, 0) {
      HeadersApart(mem, f, there, instances[k], i);
    }
  }

  /** The header keys that a run of the loops may add to the cache are no control registers. */
  lemma UncachedStays(cache: map<Key, bv64>, cache': map<Key, bv64>, mem: Memory, f: Space, there: seq<nat>)
    requires RegistersInside(mem, f, there) && ControlsUncached(cache, mem, f, there)
    requires forall k | k in cache' && k !in cache :: k.1 == 0
    ensures ControlsUncached(cache', mem, f, there)
  {
    hide RegistersInside, Address, ControlOffset;
    forall k, i | k in cache' && i in there
      ensures Address(f, k.0, k.1) != Address(f, i, ControlOffset(mem, f, i))
    {
      if k !in cache {
        HeadersApart(mem, f, there, i, k.0);
      }
    }
  }

  /** The status register of the instance is where it was and holds what it held. */
  predicate StatusKept(now: Memory, mem: Memory, f: Space, j: nat) {
    && StatusOffset(now, f, j) == StatusOffset(mem, f, j)
    && Reg(now, f, j, StatusOffset(mem, f, j)) == Reg(mem, f, j, StatusOffset(mem, f, j))
  }

  predicate StatusesKept(now: Memory, mem: Memory, f: Space, there: seq<nat>) {
    forall j | j in there :: StatusKept(now, mem, f, j)
  }

  /** Writing the control register of an instance keeps the cache coherent and moves no register. */
  lemma ControlWriteSound(cache: map<Key, bv64>, mem: Memory, f: Space, there: seq<nat>, i: nat, data: bv64)
    requires Coherent(cache, mem, f) && RegistersInside(mem, f, there) && ControlsUncached(cache, mem, f, there)
    requires i in there
    ensures var now := mem[Address(f, i, ControlOffset(mem, f, i)) := data];
            && Coherent(cache, now, f) && RegistersInside(now, f, there) && ControlsUncached(cache, now, f, there)
            && StatusOffset(now, f, i) == StatusOffset(mem, f, i)
            && StatusesKept(now, mem, f, there)
  {
    var a := Address(f, i, ControlOffset(mem, f, i));
    var now := mem[a := data];
    assert Coherent(cache, now, f) by {
      hide RegistersInside, ControlOffset, Mask;
      WriteKeepsCoherentExactly(cache, mem, f, a, data);
    }
    forall j: nat ensures PpOffset(now, f, j) == PpOffset(mem, f, j) {
      hide RegistersInside, ControlOffset, Mask, ControlsUncached, Coherent;
      HeadersApart(mem, f, there, i, j);
    }
    OffsetsDecide(cache, mem, now, f, there);
    forall j | j in there ensures StatusKept(now, mem, f, j) {
      hide Mask, Address, Load, ControlsUncached, Coherent;
      assert StatusOffset(mem, f, i) + 8 <= f.size && StatusOffset(mem, f, j) + 8 <= f.size;
      InstancesApart(f, i, ControlOffset(mem, f, i), j, StatusOffset(mem, f, j));
      StatusOf(mem, a, data, f, j);
    }
  }

  lemma StatusOf(mem: Memory, a: nat, data: bv64, f: Space, j: nat)
    requires PpOffset(mem[a := data], f, j) == PpOffset(mem, f, j) && Address(f, j, StatusOffset(mem, f, j)) != a
    ensures StatusKept(mem[a := data], mem, f, j)
  {
    hide PpOffset, Address;
  }

  /** The rules only look at where the registers of the instances are. */
  lemma OffsetsDecide(cache: map<Key, bv64>, mem: Memory, now: Memory, f: Space, there: seq<nat>)
    requires forall j: nat :: PpOffset(now, f, j) == PpOffset(mem, f, j)
    ensures RegistersInside(now, f, there) <==> RegistersInside(mem, f, there)
    ensures ControlsUncached(cache, now, f, there) <==> ControlsUncached(cache, mem, f, there)
  {
    hide PpOffset, Address;
  }

  lemma UpdateNone(mem: Memory, f: Space, m: bv64, v: bv64)
    ensures UpdateAll(mem, Controls(mem, f, []), m, v) == mem && Ascending([])
  {
    assert Controls(mem, f, []) == [];
  }

  /** Updating one more instance. */
  lemma UpdateOneMore(mem: Memory, f: Space, instances: seq<nat>, k: nat, m: bv64, v: bv64)
    requires k < |instances|
    ensures var now := UpdateAll(mem, Controls(mem, f, instances[..k]), m, v);
            var a := Address(f, instances[k], ControlOffset(mem, f, instances[k]));
            UpdateAll(mem, Controls(mem, f, instances[..k + 1]), m, v) == now[a := Update(Load(now, a), m, v)]
  {
    hide Update, Mask, Address, ControlOffset;
    var next := Controls(mem, f, instances[..k + 1]);
    assert next[..k] == Controls(mem, f, instances[..k]);
  }

  /** Control registers are found where they were before any of them was updated. */
  lemma ControlStays(mem: Memory, f: Space, there: seq<nat>, instances: seq<nat>, m: bv64, v: bv64, i: nat)
    requires RegistersInside(mem, f, there) && forall j | j in instances :: j in there
    ensures ControlOffset(UpdateAll(mem, Controls(mem, f, instances), m, v), f, i) == ControlOffset(mem, f, i)
  {
    hide Mask, UpdateAll, RegistersInside, Controls, Header;
    HeadersStay(mem, f, there, instances, m, v, i);
  }

  lemma ControlsStay(mem: Memory, f: Space, instances: seq<nat>, m: bv64, v: bv64)
    requires RegistersInside(mem, f, instances)
    ensures Controls(UpdateAll(mem, Controls(mem, f, instances), m, v), f, instances) == Controls(mem, f, instances)
  {
    hide ControlOffset, Address, UpdateAll, RegistersInside;
    forall k | 0 <= k < |instances|
      ensures ControlOffset(UpdateAll(mem, Controls(mem, f, instances), m, v), f, instances[k]) == ControlOffset(mem, f, instances[k])
    {
      ControlStays(mem, f, instances, instances, m, v, instances[k]);
    }
  }

  /**
    Switching BF and TF, or any two features with disjoint fields, over the same
    instances gives the same memory in either order.
   */
  lemma FeaturesCommute(mem: Memory, f: Space, instances: seq<nat>, m1: bv64, v1: bv64, m2: bv64, v2: bv64, a: nat)
    requires RegistersInside(mem, f, instances)
    requires m1 & m2 == 0 && Confined(m1, v1) && Confined(m2, v2)
    ensures var first := UpdateAll(mem, Controls(mem, f, instances), m1, v1);
            var second := UpdateAll(mem, Controls(mem, f, instances), m2, v2);
            Load(UpdateAll(first, Controls(first, f, instances), m2, v2), a)
            == Load(UpdateAll(second, Controls(second, f, instances), m1, v1), a)
  {
    hide Confined, UpdateAll, Controls, RegistersInside;
    ControlsStay(mem, f, instances, m1, v1);
    ControlsStay(mem, f, instances, m2, v2);
    UpdateAllCommutes(mem, Controls(mem, f, instances), m1, v1, m2, v2, a);
  }

  const BF_BIT: bv64 := 0x100
  const TF_BIT: bv64 := 0x200
  const LEVEL_MASK: bv64 := 0x7

  /** The instance of BF and TF: the two bits are disjoint, whichever way each is switched. */
  lemma BfAndTfAreDisjoint(bf: bool, tf: bool)
    ensures BF_BIT & TF_BIT == 0 && BF_BIT & LEVEL_MASK == 0 && TF_BIT & LEVEL_MASK == 0
    ensures Confined(BF_BIT, if bf then BF_BIT else 0) && Confined(TF_BIT, if tf then TF_BIT else 0)
  {
  }

  /**
    `setCurrentLevel` does not confine the level: up to 7 it touches only the
    level field, while 0x100 also switches BF on in every register it writes.
   */
  lemma LevelConfinedExactly(level: bv64)
    ensures Confined(LEVEL_MASK, level) <==> level <= 7
    ensures Update(0, LEVEL_MASK, 0x100) & BF_BIT == BF_BIT
  {
  }

  predicate AllBelow(instances: seq<nat>, n: nat) { forall k | 0 <= k < |instances| :: instances[k] < n }

  lemma ProbedAscends(mem: Memory, f: Space, valid: seq<nat>, replies: seq<Reply>)
    requires ProbedValid(mem, f, valid, replies)
    ensures Ascending(valid)
  {
  }

  lemma ProbedBelow(mem: Memory, f: Space, valid: seq<nat>, replies: seq<Reply>)
    requires ProbedValid(mem, f, valid, replies)
    ensures AllBelow(valid, f.instances)
  {
    assert forall k | 0 <= k < |valid| :: valid[k] in valid;
  }

  /** Resolved core counts and core masks, as the registers of the valid instances hold them. */
  function CoreCounts(mem: Memory, f: Space, valid: seq<nat>, level: nat): map<nat, nat>
  {
    map i | i in valid :: Mask(PpInfo1(mem, f, i, level), 8, 8)
  }

  function MaskRegister(mem: Memory, f: Space, i: nat, level: nat, highPriority: bool): bv64
  {
    if highPriority then Reg(mem, f, i, BfInfoOffset(mem, f, i, level) + 8) else PpInfo2(mem, f, i, level)
  }

  function CoreMasks(mem: Memory, f: Space, valid: seq<nat>, level: nat, highPriority: bool): map<nat, bv64>
  {
    map i | i in valid :: MaskRegister(mem, f, i, level, highPriority)
  }

  /** The core list that the registers of the valid instances call for. */
  function ExpectedCores(mem: Memory, f: Space, valid: seq<nat>, level: nat, highPriority: bool): seq<nat>
  {
    var compute := Compute(valid, CoreCounts(mem, f, valid, level));
    CoreList(compute, CoreMasks(mem, f, valid, level, highPriority))
  }

  /** `list` has the cores of the first `k` valid instances, all of them compute instances. */
  predicate Gathered(valid: seq<nat>, counts: map<nat, nat>, masks: map<nat, bv64>, k: nat, list: seq<nat>) {
    && k <= |valid| && (forall i | i in valid :: i in counts && i in masks)
    && Compute(valid, counts) == valid[..k] + Compute(valid[k..], counts)
    && list == CoreList(valid[..k], masks)
  }

  lemma GatherStart(valid: seq<nat>, counts: map<nat, nat>, masks: map<nat, bv64>)
    requires forall i | i in valid :: i in counts && i in masks
    ensures Gathered(valid, counts, masks, 0, [])
  {
    assert valid[..0] == [] && valid[0..] == valid;
  }

  lemma GatherStep(valid: seq<nat>, counts: map<nat, nat>, masks: map<nat, bv64>, k: nat, list: seq<nat>)
    requires Gathered(valid, counts, masks, k, list) && k < |valid| && counts[valid[k]] != 0
    ensures Gathered(valid, counts, masks, k + 1, list + Shifted(BitList(masks[valid[k]], 0), valid[k]))
  {
    hide Shifted, BitList;
    assert valid[k..][1..] == valid[k + 1..];
    assert valid[..k + 1][..k] == valid[..k];
  }

  lemma GatherStop(valid: seq<nat>, counts: map<nat, nat>, masks: map<nat, bv64>, k: nat, list: seq<nat>)
    requires Gathered(valid, counts, masks, k, list)
    requires k == |valid| || counts[valid[k]] == 0
    ensures list == CoreList(Compute(valid, counts), masks)
  {
    hide CoreList;
    assert Compute(valid[k..], counts) == [];
    assert Compute(valid, counts) == valid[..k];
  }

  lemma Tabulated(mem: Memory, f: Space, valid: seq<nat>, level: nat, highPriority: bool)
    ensures forall i | i in valid ::
              && i in CoreCounts(mem, f, valid, level)
              && CoreCounts(mem, f, valid, level)[i] == Mask(PpInfo1(mem, f, i, level), 8, 8)
              && i in CoreMasks(mem, f, valid, level, highPriority)
              && CoreMasks(mem, f, valid, level, highPriority)[i] == MaskRegister(mem, f, i, level, highPriority)
  {
    hide Mask, PpInfo1, MaskRegister;
  }

  /** The error field of an instance's status register is clear. */
  predicate NoError(mem: Memory, f: Space, instance: nat, errBitLo: nat, errWidth: nat)
  {
    Mask(Reg(mem, f, instance, StatusOffset(mem, f, instance)), errBitLo, errWidth) == 0
  }

  // ------------------------------------------------------------------ the register layout in numbers

  /** Eight times bits 31..24 of the header: where the performance profile registers of an instance start. */
  function OffsetAt(mem: Memory, f: Space, i: nat): nat {
    Load(mem, f.offset + f.size * i) as nat / 0x100_0000 % 0x100 * 8
  }

  function ControlAt(mem: Memory, f: Space, i: nat): nat { f.offset + f.size * i + OffsetAt(mem, f, i) + 24 }

  function StatusAt(mem: Memory, f: Space, i: nat): nat { f.offset + f.size * i + OffsetAt(mem, f, i) + 32 }

  /** Eight times byte `level` of the register 16 bytes in. */
  function LevelAt(mem: Memory, f: Space, i: nat, level: nat): nat {
    OffsetAt(mem, f, i)
    + Load(mem, f.offset + f.size * i + OffsetAt(mem, f, i) + 16) as nat / Pow2(level * 8) % 0x100 * 8
  }

  /** Bits 15..8 of the level's second register. */
  function CoresAt(mem: Memory, f: Space, i: nat, level: nat): nat {
    Load(mem, f.offset + f.size * i + LevelAt(mem, f, i, level) + 8) as nat / 0x100 % 0x100
  }

  /** The level's third register; or, for the high priority cores, the second one of the block that byte 1 of the register 8 bytes in names. */
  function CoreMaskAt(mem: Memory, f: Space, i: nat, level: nat, highPriority: bool): bv64 {
    var base := f.offset + f.size * i;
    if highPriority
    then Load(mem, base + LevelAt(mem, f, i, level) + Load(mem, base + OffsetAt(mem, f, i) + 8) as nat / 0x100 % 0x100 * 8 + 8)
    else Load(mem, base + LevelAt(mem, f, i, level) + 16)
  }

  lemma FieldIs(v: bv64, lo: nat, width: nat, d: nat, m: nat)
    requires Pow2(lo) == d && Pow2(width) == m
    ensures Mask(v, lo, width) == v as nat / d % m
  {
  }

  lemma OffsetIs(mem: Memory, f: Space, i: nat)
    ensures PpOffset(mem, f, i) == OffsetAt(mem, f, i)
    ensures Address(f, i, ControlOffset(mem, f, i)) == ControlAt(mem, f, i)
    ensures Address(f, i, StatusOffset(mem, f, i)) == StatusAt(mem, f, i)
  {
    hide Mask;
    Pow2Values();
    FieldIs(Header(mem, f, i), 24, 8, 0x100_0000, 0x100);
  }

  lemma LevelIs(mem: Memory, f: Space, i: nat, level: nat)
    ensures PpLevelOffset(mem, f, i, level) == LevelAt(mem, f, i, level)
  {
    hide Mask, PpOffset, OffsetAt, Load;
    Pow2Values();
    OffsetIs(mem, f, i);
    FieldIs(PpOffset1(mem, f, i), level * 8, 8, Pow2(level * 8), 0x100);
  }

  lemma CoresAre(mem: Memory, f: Space, i: nat, level: nat)
    ensures Mask(PpInfo1(mem, f, i, level), 8, 8) == CoresAt(mem, f, i, level)
  {
    hide Mask, PpLevelOffset, LevelAt, Load;
    Pow2Values();
    LevelIs(mem, f, i, level);
    FieldIs(PpInfo1(mem, f, i, level), 8, 8, 0x100, 0x100);
  }

  /** The first registers of the BF and TF blocks of a level. */
  lemma FeatureBlocksAre(mem: Memory, f: Space, i: nat, level: nat)
    ensures var pointers := Load(mem, f.offset + f.size * i + OffsetAt(mem, f, i) + 8) as nat;
            && Address(f, i, BfInfoOffset(mem, f, i, level))
               == f.offset + f.size * i + LevelAt(mem, f, i, level) + pointers / 0x100 % 0x100 * 8
            && Address(f, i, TfInfoOffset(mem, f, i, level))
               == f.offset + f.size * i + LevelAt(mem, f, i, level) + pointers / 0x1_0000 % 0x100 * 8
  {
    hide Mask, PpLevelOffset, LevelAt, PpOffset, OffsetAt, Load;
    Pow2Values();
    OffsetIs(mem, f, i);
    LevelIs(mem, f, i, level);
    FieldIs(PpOffset0(mem, f, i), 8, 8, 0x100, 0x100);
    FieldIs(PpOffset0(mem, f, i), 16, 8, 0x1_0000, 0x100);
  }

  lemma CoreMaskIs(mem: Memory, f: Space, i: nat, level: nat, highPriority: bool)
    ensures MaskRegister(mem, f, i, level, highPriority) == CoreMaskAt(mem, f, i, level, highPriority)
  {
    hide Mask, PpLevelOffset, LevelAt, PpOffset, OffsetAt, Load;
    if highPriority {
      FeatureBlocksAre(mem, f, i, level);
      NextRegister(f, i, BfInfoOffset(mem, f, i, level), 8);
    } else {
      LevelIs(mem, f, i, level);
      NextRegister(f, i, PpLevelOffset(mem, f, i, level), 16);
    }
  }

  lemma NextRegister(f: Space, i: nat, offset: nat, step: nat)
    ensures Address(f, i, offset + step) == Address(f, i, offset) + step
  {
  }

  /** `now` is `was` with a field set in the control registers of `instances`, and in no other register. */
  ghost predicate FieldSet(now: Memory, was: Memory, f: Space, instances: seq<nat>, m: bv64, v: bv64) {
    forall a: nat :: Load(now, a) ==
      if ControlOfSome(was, f, instances, a) then WithField(Load(was, a), m, v) else Load(was, a)
  }

  predicate ControlOfSome(mem: Memory, f: Space, instances: seq<nat>, a: nat) {
    exists i | i in instances :: a == ControlAt(mem, f, i)
  }

  lemma ControlsAre(mem: Memory, f: Space, instances: seq<nat>, a: nat)
    ensures a in Controls(mem, f, instances) <==> ControlOfSome(mem, f, instances, a)
  {
    hide ControlOffset, Address, ControlAt;
    var controls := Controls(mem, f, instances);
    if a in controls {
      var k :| 0 <= k < |controls| && controls[k] == a;
      OffsetIs(mem, f, instances[k]);
      assert instances[k] in instances;
    }
    if ControlOfSome(mem, f, instances, a) {
      var i :| i in instances && a == ControlAt(mem, f, i);
      var k :| 0 <= k < |instances| && instances[k] == i;
      OffsetIs(mem, f, i);
      assert controls[k] == a;
    }
  }

  /** `x` with the field set. */
  function WithField(x: bv64, m: bv64, v: bv64): bv64 { (x & !m) | v }

  lemma UpdateSetsField(x: bv64, m: bv64, v: bv64)
    ensures Update(x, m, v) == WithField(x, m, v)
  {
  }

  lemma UpdatedAt(mem: Memory, f: Space, instances: seq<nat>, m: bv64, v: bv64, a: nat)
    ensures Load(UpdateAll(mem, Controls(mem, f, instances), m, v), a) ==
            if ControlOfSome(mem, f, instances, a) then WithField(Load(mem, a), m, v) else Load(mem, a)
  {
    hide UpdateAll, Update, Controls, ControlOfSome, Load, WithField;
    ControlsAre(mem, f, instances, a);
    UpdateAllAt(mem, Controls(mem, f, instances), m, v, a);
    UpdateSetsField(Load(mem, a), m, v);
  }

  lemma AllUpdated(mem: Memory, f: Space, instances: seq<nat>, m: bv64, v: bv64)
    ensures FieldSet(UpdateAll(mem, Controls(mem, f, instances), m, v), mem, f, instances, m, v)
  {
    hide UpdateAll, Controls, ControlOfSome, Load, WithField;
    forall a: nat
      ensures Load(UpdateAll(mem, Controls(mem, f, instances), m, v), a) ==
              if ControlOfSome(mem, f, instances, a) then WithField(Load(mem, a), m, v) else Load(mem, a)
    {
      UpdatedAt(mem, f, instances, m, v, a);
    }
  }

  /** The error field of the instance's status register: `width` bits from `2^lo` on. */
  predicate ErrorAt(mem: Memory, f: Space, i: nat, d: nat, m: nat)
    requires d >= 1 && m >= 1
  {
    Load(mem, StatusAt(mem, f, i)) as nat / d % m != 0
  }

  lemma ErrorIs(mem: Memory, f: Space, i: nat, lo: nat, width: nat, d: nat, m: nat)
    requires Pow2(lo) == d && Pow2(width) == m
    ensures NoError(mem, f, i, lo, width) <==> !ErrorAt(mem, f, i, d, m)
  {
    hide Mask, StatusOffset, StatusAt, Load;
    OffsetIs(mem, f, i);
    FieldIs(Reg(mem, f, i, StatusOffset(mem, f, i)), lo, width, d, m);
  }

  /**
    The list, in numbers: ascending, and core `c` is in it exactly when instance
    `c / 64` is valid, every valid instance up to it has cores, and bit `c % 64`
    of its mask is set.
   */
  ghost predicate ListsCores(list: seq<nat>, mem: Memory, f: Space, valid: seq<nat>, level: nat, highPriority: bool) {
    && (forall j, k | 0 <= j < k < |list| :: list[j] < list[k])
    && forall c: nat :: c in list <==>
         && c / 64 in valid && (forall j | j in valid && j <= c / 64 :: CoresAt(mem, f, j, level) != 0)
         && CoreMaskAt(mem, f, c / 64, level, highPriority) as nat / Pow2(c % 64) % 2 == 1
  }

  /** The compute instances with a core in their mask are numbered below 2^26. */
  predicate CoreIdsFit(mem: Memory, f: Space, valid: seq<nat>, level: nat, highPriority: bool) {
    forall i | && i in valid && (forall j | j in valid && j <= i :: CoresAt(mem, f, j, level) != 0)
               && CoreMaskAt(mem, f, i, level, highPriority) != 0 :: i < 0x400_0000
  }

  lemma BitIs(v: bv64, b: nat)
    ensures BitSet(v, b) <==> v as nat / Pow2(b) % 2 == 1
  {
  }

  lemma ListedInNumbers(list: seq<nat>, mem: Memory, f: Space, valid: seq<nat>, level: nat, highPriority: bool)
    requires Ascending(valid)
    ensures var counts, masks := CoreCounts(mem, f, valid, level), CoreMasks(mem, f, valid, level, highPriority);
            && (Ascending(list) && NamesCores(list, valid, counts, masks)
                <==> ListsCores(list, mem, f, valid, level, highPriority))
            && (IdsFit(Compute(valid, counts), masks) <==> CoreIdsFit(mem, f, valid, level, highPriority))
  {
    hide BitSet, CoreCounts, CoreMasks, MaskRegister, CoreMaskAt, CoresAt, Compute, Mask, PpInfo1;
    var counts, masks := CoreCounts(mem, f, valid, level), CoreMasks(mem, f, valid, level, highPriority);
    Tabulated(mem, f, valid, level, highPriority);
    forall i | i in valid ensures counts[i] == CoresAt(mem, f, i, level) && masks[i] == CoreMaskAt(mem, f, i, level, highPriority) {
      CoresAre(mem, f, i, level);
      CoreMaskIs(mem, f, i, level, highPriority);
    }
    ComputeExact(valid, counts);
    forall c: nat | c / 64 in valid
      ensures BitSet(masks[c / 64], c % 64) <==> CoreMaskAt(mem, f, c / 64, level, highPriority) as nat / Pow2(c % 64) % 2 == 1
    {
      BitIs(masks[c / 64], c % 64);
    }
  }

  lemma ErrorsKept(now: Memory, mem: Memory, f: Space, there: seq<nat>, i: nat, errBitLo: nat, errWidth: nat)
    requires StatusesKept(now, mem, f, there) && i in there
    ensures NoError(now, f, i, errBitLo, errWidth) <==> NoError(mem, f, i, errBitLo, errWidth)
  {
    hide StatusOffset, Mask, Reg;
    assert StatusKept(now, mem, f, i);
  }

  class SstTpmi {
    const intf: SstRegisterSet

    constructor (intf: SstRegisterSet)
      ensures this.intf == intf
    {
      this.intf := intf;
    }

    /** The cache is coherent, and the control registers of these instances lie in their place and are not cached. */
    ghost predicate Sound(there: seq<nat>)
      reads intf, intf.bus
    {
      && intf.CacheOk() && RegistersInside(intf.bus.mem, intf.space, there)
      && ControlsUncached(intf.cachedRegs, intf.bus.mem, intf.space, there)
    }

    /** One round of the loop below: `ok` is false where it throws, `wrote` tells whether the write went through. */
    method SetInstance(instance: nat, fieldMask: bv64, value: bv64, errBitLo: nat, errWidth: nat, ghost there: seq<nat>)
      returns (ok: bool, wrote: bool)
      requires intf.Valid() && instance < intf.space.instances && instance in there
      modifies intf, intf.peci, intf.bus
      ensures intf.Valid() && intf.bus.clock >= old(intf.bus.clock)
      ensures ok ==> wrote
      ensures old(Sound(there)) ==>
                var a := Address(intf.space, instance, ControlOffset(old(intf.bus.mem), intf.space, instance));
                && Sound(there) && StatusesKept(intf.bus.mem, old(intf.bus.mem), intf.space, there)
                && intf.bus.mem == (if wrote then old(intf.bus.mem)[a := Update(Load(old(intf.bus.mem), a), fieldMask, value)]
                                    else old(intf.bus.mem))
                && (ok ==> NoError(intf.bus.mem, intf.space, instance, errBitLo, errWidth))
                && (intf.BusFailed(old(intf.bus.clock)) ||
                    (wrote && (ok <==> NoError(intf.bus.mem, intf.space, instance, errBitLo, errWidth))))
    {
      hide Update, Mask, RegistersInside, ControlsUncached, NoError, Coherent;
      ghost var mem, f, cache0 := intf.bus.mem, intf.space, intf.cachedRegs;
      ghost var sound := Sound(there);
      ok, wrote := false, false;
      var control := intf.PpControl(instance);
      if sound {
        UncachedStays(cache0, intf.cachedRegs, mem, f, there);
      }
      if control.Failure? {
        return;
      }
      var status := Update(control.value, fieldMask, value);
      wrote := WriteControl(instance, status, there);
      if wrote {
        ok := StatusClear(instance, errBitLo, errWidth, there);
      }
    }

    /** The writing half: the control register, and nothing else, takes the value. */
    method WriteControl(instance: nat, value: bv64, ghost there: seq<nat>) returns (wrote: bool)
      requires intf.Valid() && instance < intf.space.instances && instance in there
      modifies intf, intf.peci, intf.bus
      ensures intf.Valid() && intf.bus.clock >= old(intf.bus.clock)
      ensures !wrote ==> intf.BusFailed(old(intf.bus.clock))
      ensures old(Sound(there)) ==>
                var mem := old(intf.bus.mem);
                && Sound(there) && StatusesKept(intf.bus.mem, mem, intf.space, there)
                && StatusOffset(intf.bus.mem, intf.space, instance) == StatusOffset(mem, intf.space, instance)
                && intf.bus.mem ==
                   if wrote then mem[Address(intf.space, instance, ControlOffset(mem, intf.space, instance)) := value] else mem
    {
      hide Mask, RegistersInside, ControlsUncached, Coherent;
      ghost var mem, f, cache0 := intf.bus.mem, intf.space, intf.cachedRegs;
      ghost var sound := Sound(there);
      wrote := false;
      var pp := intf.PpOffset(instance);
      if sound {
        UncachedStays(cache0, intf.cachedRegs, mem, f, there);
      }
      if pp.Failure? {
        return;
      }
      wrote := intf.Write(instance, pp.value + 8 * 3, value);
      if wrote && sound {
        ControlWriteSound(intf.cachedRegs, mem, f, there, instance, value);
      }
    }

    /** The checking half: the error field of the status register. */
    method StatusClear(instance: nat, errBitLo: nat, errWidth: nat, ghost there: seq<nat>) returns (ok: bool)
      requires intf.Valid() && instance < intf.space.instances
      modifies intf, intf.peci, intf.bus`clock, intf.bus`woken
      ensures intf.Valid() && intf.bus.clock >= old(intf.bus.clock)
      ensures old(Sound(there)) ==>
                && Sound(there)
                && (ok ==> NoError(intf.bus.mem, intf.space, instance, errBitLo, errWidth))
                && (intf.BusFailed(old(intf.bus.clock)) ||
                    (ok <==> NoError(intf.bus.mem, intf.space, instance, errBitLo, errWidth)))
    {
      hide Mask, RegistersInside, ControlsUncached, Coherent;
      ghost var cache := intf.cachedRegs;
      ghost var sound := Sound(there);
      ok := false;
      var status := intf.PpStatus(instance);
      if sound {
        UncachedStays(cache, intf.cachedRegs, intf.bus.mem, intf.space, there);
      }
      if status.Failure? {
        return;
      }
      var error := Mask(status.value, errBitLo, errWidth);
      ok := error == 0;
    }

    /**
      `setAllInstances`: on success the control register of every valid instance
      has the field set and nothing else in memory changes; where the loop
      throws, exactly a prefix of the valid instances has been updated. It is
      asked of the valid instances alone that their registers lie in their place.
     */
    method SetAllInstances(fieldMask: bv64, value: bv64, errBitLo: nat, errWidth: nat)
      returns (ok: bool, ghost valid: seq<nat>, ghost replies: seq<Reply>, ghost done: nat)
      requires intf.Valid()
      modifies intf, intf.peci, intf.bus
      ensures intf.Valid()
      ensures ok || done > 0 ==> ProbedValid(old(intf.bus.mem), intf.space, valid, replies)
      ensures done <= |valid| && (ok ==> done == |valid|)
      ensures old(Sound(valid)) ==>
                && Sound(valid)
                && (ok ==> forall i | i in valid :: NoError(intf.bus.mem, intf.space, i, errBitLo, errWidth))
                && (!ok ==> intf.BusFailed(old(intf.bus.clock)) ||
                            (done > 0 && !NoError(intf.bus.mem, intf.space, valid[done - 1], errBitLo, errWidth)))
                && intf.bus.mem ==
                   UpdateAll(old(intf.bus.mem), Controls(old(intf.bus.mem), intf.space, valid[..done]), fieldMask, value)
    {
      hide Update, Mask, RegistersInside, ControlsUncached, Header, Address, Coherent, ControlOffset, StatusOffset, Controls, UpdateAll, Ascending, NoError;
      ghost var mem, f := intf.bus.mem, intf.space;
      UpdateNone(mem, f, fieldMask, value);
      var instances, answers := intf.ValidInstances();
      replies := answers;
      if instances.Failure? {
        valid, done := [], 0;
        assert valid[..0] == [];
        return false, valid, replies, done;
      }
      valid, done := instances.value, 0;
      ghost var sound := Sound(valid);
      assert valid[..0] == [] && forall j | 0 <= j < |valid| :: valid[j] in valid;
      var k := 0;
      while k < |instances.value|
        invariant k <= |instances.value| && done == k
        invariant intf.Valid() && intf.bus.clock >= old(intf.bus.clock)
        invariant sound ==> Sound(valid)
        invariant sound ==> forall j | 0 <= j < k :: NoError(intf.bus.mem, f, valid[j], errBitLo, errWidth)
        invariant sound ==> intf.bus.mem == UpdateAll(mem, Controls(mem, f, valid[..k]), fieldMask, value)
      {
        UpdateOneMore(mem, f, valid, k, fieldMask, value);
        if sound {
          ControlStays(mem, f, valid, valid[..k], fieldMask, value, valid[k]);
        }
        ghost var before := intf.bus.mem;
        var roundOk, wrote := SetInstance(instances.value[k], fieldMask, value, errBitLo, errWidth, valid);
        if wrote {
          done := k + 1;
        }
        if !roundOk {
          return false, valid, replies, done;
        }
        if sound {
          forall j | 0 <= j < k ensures NoError(intf.bus.mem, f, valid[j], errBitLo, errWidth) {
            ErrorsKept(intf.bus.mem, before, f, valid, valid[j], errBitLo, errWidth);
          }
        }
        k := k + 1;
      }
      return true, valid, replies, done;
    }

    method SetBfEnabled(enable: bool) returns (ok: bool, ghost valid: seq<nat>, ghost replies: seq<Reply>, ghost done: nat)
      requires intf.Valid()
      modifies intf, intf.peci, intf.bus
      ensures intf.Valid()
      ensures ok || done > 0 ==> ProbedValid(old(intf.bus.mem), intf.space, valid, replies)
      ensures done <= |valid| && (ok ==> done == |valid|)
      ensures old(Sound(valid)) ==>
                && Sound(valid)
                && (!ok ==> intf.BusFailed(old(intf.bus.clock)) ||
                            (done > 0 && !NoError(intf.bus.mem, intf.space, valid[done - 1], 32, 3)))
                && intf.bus.mem ==
                   UpdateAll(old(intf.bus.mem), Controls(old(intf.bus.mem), intf.space, valid[..done]), BF_BIT, if enable then BF_BIT else 0)
      ensures old(Sound(valid)) ==>
                && FieldSet(intf.bus.mem, old(intf.bus.mem), intf.space, valid[..done], 0x100, if enable then 0x100 else 0)
                && (ok ==> forall i | i in valid :: !ErrorAt(intf.bus.mem, intf.space, i, 0x1_0000_0000, 8))
                && (!ok ==> intf.BusFailed(old(intf.bus.clock)) ||
                            (done > 0 && ErrorAt(intf.bus.mem, intf.space, valid[done - 1], 0x1_0000_0000, 8)))
    {
      hide RegistersInside, ControlsUncached, Coherent, Controls, UpdateAll, NoError, ErrorAt, FieldSet, ProbedValid;
      ghost var mem := intf.bus.mem;
      Pow2Values();
      ok, valid, replies, done := SetAllInstances(BF_BIT, if enable then BF_BIT else 0, 32, 3);
      AllUpdated(mem, intf.space, valid[..done], 0x100, if enable then 0x100 else 0);
      forall i | i in valid
        ensures NoError(intf.bus.mem, intf.space, i, 32, 3) <==> !ErrorAt(intf.bus.mem, intf.space, i, 0x1_0000_0000, 8)
      {
        ErrorIs(intf.bus.mem, intf.space, i, 32, 3, 0x1_0000_0000, 8);
      }
    }

    method SetTfEnabled(enable: bool) returns (ok: bool, ghost valid: seq<nat>, ghost replies: seq<Reply>, ghost done: nat)
      requires intf.Valid()
      modifies intf, intf.peci, intf.bus
      ensures intf.Valid()
      ensures ok || done > 0 ==> ProbedValid(old(intf.bus.mem), intf.space, valid, replies)
      ensures done <= |valid| && (ok ==> done == |valid|)
      ensures old(Sound(valid)) ==>
                && Sound(valid)
                && (!ok ==> intf.BusFailed(old(intf.bus.clock)) ||
                            (done > 0 && !NoError(intf.bus.mem, intf.space, valid[done - 1], 35, 3)))
                && intf.bus.mem ==
                   UpdateAll(old(intf.bus.mem), Controls(old(intf.bus.mem), intf.space, valid[..done]), TF_BIT, if enable then TF_BIT else 0)
      ensures old(Sound(valid)) ==>
                && FieldSet(intf.bus.mem, old(intf.bus.mem), intf.space, valid[..done], 0x200, if enable then 0x200 else 0)
                && (ok ==> forall i | i in valid :: !ErrorAt(intf.bus.mem, intf.space, i, 0x8_0000_0000, 8))
                && (!ok ==> intf.BusFailed(old(intf.bus.clock)) ||
                            (done > 0 && ErrorAt(intf.bus.mem, intf.space, valid[done - 1], 0x8_0000_0000, 8)))
    {
      hide RegistersInside, ControlsUncached, Coherent, Controls, UpdateAll, NoError, ErrorAt, FieldSet, ProbedValid;
      ghost var mem := intf.bus.mem;
      Pow2Values();
      ok, valid, replies, done := SetAllInstances(TF_BIT, if enable then TF_BIT else 0, 35, 3);
      AllUpdated(mem, intf.space, valid[..done], 0x200, if enable then 0x200 else 0);
      forall i | i in valid
        ensures NoError(intf.bus.mem, intf.space, i, 35, 3) <==> !ErrorAt(intf.bus.mem, intf.space, i, 0x8_0000_0000, 8)
      {
        ErrorIs(intf.bus.mem, intf.space, i, 35, 3, 0x8_0000_0000, 8);
      }
    }

    method SetCurrentLevel(level: bv64) returns (ok: bool, ghost valid: seq<nat>, ghost replies: seq<Reply>, ghost done: nat)
      requires intf.Valid()
      modifies intf, intf.peci, intf.bus
      ensures intf.Valid()
      ensures ok || done > 0 ==> ProbedValid(old(intf.bus.mem), intf.space, valid, replies)
      ensures done <= |valid| && (ok ==> done == |valid|)
      ensures old(Sound(valid)) ==>
                && Sound(valid)
                && (!ok ==> intf.BusFailed(old(intf.bus.clock)) ||
                            (done > 0 && !NoError(intf.bus.mem, intf.space, valid[done - 1], 4, 4)))
                && intf.bus.mem ==
                   UpdateAll(old(intf.bus.mem), Controls(old(intf.bus.mem), intf.space, valid[..done]), LEVEL_MASK, level)
      ensures old(Sound(valid)) ==>
                && FieldSet(intf.bus.mem, old(intf.bus.mem), intf.space, valid[..done], 0x7, level)
                && (ok ==> forall i | i in valid :: !ErrorAt(intf.bus.mem, intf.space, i, 16, 16))
                && (!ok ==> intf.BusFailed(old(intf.bus.clock)) ||
                            (done > 0 && ErrorAt(intf.bus.mem, intf.space, valid[done - 1], 16, 16)))
    {
      hide RegistersInside, ControlsUncached, Coherent, Controls, UpdateAll, NoError, ErrorAt, FieldSet, ProbedValid;
      ghost var mem := intf.bus.mem;
      Pow2Values();
      ok, valid, replies, done := SetAllInstances(LEVEL_MASK, level, 4, 4);
      AllUpdated(mem, intf.space, valid[..done], 0x7, level);
      forall i | i in valid
        ensures NoError(intf.bus.mem, intf.space, i, 4, 4) <==> !ErrorAt(intf.bus.mem, intf.space, i, 16, 16)
      {
        ErrorIs(intf.bus.mem, intf.space, i, 4, 4, 16, 16);
      }
    }

    // ------------------------------------------------------------------ core lists

    /** RESOLVED_CORE_COUNT of an instance. */
    method ResolvedCoreCount(instance: nat, level: nat) returns (res: Result<nat, SstError>)
      requires intf.Valid() && intf.CacheOk()
      modifies intf, intf.peci, intf.bus`clock, intf.bus`woken
      ensures intf.Valid() && intf.CacheOk()
      ensures res.Success? ==> res.value == Mask(PpInfo1(intf.bus.mem, intf.space, instance, level), 8, 8)
      ensures res.Failure? ==> intf.Justified(res.error, instance, old(intf.bus.clock))
      ensures intf.bus.clock >= old(intf.bus.clock)
    {
      hide Mask;
      var info := intf.PpInfo(instance, level, 1);
      if info.Failure? {
        return Failure(info.error);
      }
      return Success(Mask(info.value, 8, 8));
    }

    method CoreMask(instance: nat, level: nat, highPriority: bool) returns (res: Outcome)
      requires intf.Valid() && intf.CacheOk()
      modifies intf, intf.peci, intf.bus`clock, intf.bus`woken
      ensures intf.Valid() && intf.CacheOk()
      ensures res.Success? ==> res.value == MaskRegister(intf.bus.mem, intf.space, instance, level, highPriority)
      ensures res.Failure? ==> intf.Justified(res.error, instance, old(intf.bus.clock))
      ensures intf.bus.clock >= old(intf.bus.clock)
    {
      hide Mask;
      if highPriority {
        res := intf.BfInfo(instance, level, 1);
      } else {
        res := intf.PpInfo(instance, level, 2);
      }
    }

    /**
      `gatherCoreList` over `forEachComputeInstance`: the core ids named by the
      mask registers of the compute instances. `highPriority` selects bfInfo1
      as the mask, otherwise ppInfo2.
     */
    method GatherCoreList(level: nat, highPriority: bool)
      returns (res: Result<seq<nat>, SstError>, ghost valid: seq<nat>, ghost replies: seq<Reply>)
      requires intf.Valid() && intf.CacheOk()
      modifies intf, intf.peci, intf.bus`clock, intf.bus`woken
      ensures intf.Valid() && intf.CacheOk()
      ensures res.Success? ==>
                && ProbedValid(intf.bus.mem, intf.space, valid, replies)
                && res.value == ExpectedCores(intf.bus.mem, intf.space, valid, level, highPriority)
                && var counts := CoreCounts(intf.bus.mem, intf.space, valid, level);
                   var masks := CoreMasks(intf.bus.mem, intf.space, valid, level, highPriority);
                   (Ascending(res.value) && NamesCores(res.value, valid, counts, masks) <==>
                    IdsFit(Compute(valid, counts), masks))
      ensures res.Success? ==>
                (ListsCores(res.value, intf.bus.mem, intf.space, valid, level, highPriority) <==>
                 CoreIdsFit(intf.bus.mem, intf.space, valid, level, highPriority))
      ensures res.Failure? ==> intf.BusFailed(old(intf.bus.clock))
    {
      hide Mask, BitList, ProbedValid, CoreCounts, CoreMasks, Shifted, Compute, CoreList, PpInfo1, MaskRegister, Gathered, NamesCores, IdsFit, Ascending, ListsCores, CoreIdsFit;
      ghost var mem, f := intf.bus.mem, intf.space;
      valid := [];
      var instances, answers := intf.ValidInstances();
      replies := answers;
      if instances.Failure? {
        return Failure(instances.error), valid, replies;
      }
      valid := instances.value;
      assert AllBelow(valid, f.instances) by { ProbedBelow(mem, f, valid, replies); }
      ghost var counts := CoreCounts(mem, f, valid, level);
      ghost var masks := CoreMasks(mem, f, valid, level, highPriority);
      Tabulated(mem, f, valid, level, highPriority);
      GatherStart(valid, counts, masks);
      var list: seq<nat> := [];
      var k := 0;
      while k < |instances.value|
        invariant k <= |instances.value| && intf.Valid() && intf.CacheOk() && intf.bus.clock >= old(intf.bus.clock)
        invariant Gathered(valid, counts, masks, k, list)
      {
        var instance := instances.value[k];
        var coreCount := ResolvedCoreCount(instance, level);
        if coreCount.Failure? {
          return Failure(coreCount.error), valid, replies;
        }
        if coreCount.value == 0 {
          break;
        }
        var mask := CoreMask(instance, level, highPriority);
        if mask.Failure? {
          return Failure(mask.error), valid, replies;
        }
        GatherStep(valid, counts, masks, k, list);
        list := list + Shifted(BitList(mask.value, 0), instance);
        k := k + 1;
      }
      GatherStop(valid, counts, masks, k, list);
      assert Ascending(valid) by { ProbedAscends(mem, f, valid, replies); }
      GatheredExactly(valid, counts, masks);
      ListedInNumbers(list, mem, f, valid, level, highPriority);
      return Success(list), valid, replies;
    }
  }
}
