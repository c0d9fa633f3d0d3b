/**
  The SST register space of one CPU: where each register lies, what a field
  update does to the control registers, and which cores a set of masks names.
 */
module SstModel {
  import opened Options
  import opened PeciBus
  import opened FieldUpdate

  /** What the backend uses of the cached TPMI feature. */
  datatype Space = Space(offset: nat, instances: nat, size: nat)

  /** The bus address of a register of an instance. */
  function Address(f: Space, instance: nat, offset: nat): nat {
    offset + f.offset + f.size * instance
  }

  function Reg(mem: Memory, f: Space, instance: nat, offset: nat): bv64 {
    Load(mem, Address(f, instance, offset))
  }

  // ------------------------------------------------------------------ bits and fields

  function Pow2(n: nat): (p: nat)
    ensures p >= 1
  {
    if n == 0 then 1 else 2 * Pow2(n - 1)
  }

  function Div(n: nat, d: nat): (q: nat)
    requires d >= 1
    ensures q * d <= n < q * d + d
  {
    n / d
  }

  function Rem(n: nat, d: nat): (r: nat)
    requires d >= 1
    ensures r < d && n == Div(n, d) * d + r
  {
    n % d
  }

  /** Bits `lo` to `lo + width - 1`, as a number; a register has none past bit 63. */
  function Mask(v: bv64, lo: nat, width: nat): nat {
    Rem(Div(v as nat, Pow2(lo)), Pow2(width))
  }

  predicate Bit(n: nat, b: nat) { Div(n, Pow2(b)) % 2 == 1 }

  predicate BitSet(v: bv64, b: nat) { Bit(v as nat, b) }

  lemma Pow2Values()
    ensures Pow2(3) == 8 && Pow2(4) == 16 && Pow2(8) == 0x100 && Pow2(16) == 0x1_0000 && Pow2(24) == 0x100_0000
    ensures Pow2(32) == 0x1_0000_0000 && Pow2(35) == 0x8_0000_0000 && Pow2(64) == 0x1_0000_0000_0000_0000
  {
    assert Pow2(12) == 0x1000 && Pow2(20) == 0x10_0000 && Pow2(28) == 0x1000_0000;
    assert Pow2(36) == 0x10_0000_0000 && Pow2(40) == 0x100_0000_0000 && Pow2(44) == 0x1000_0000_0000;
    assert Pow2(48) == 0x1_0000_0000_0000 && Pow2(52) == 0x10_0000_0000_0000 && Pow2(56) == 0x100_0000_0000_0000;
    assert Pow2(60) == 0x1000_0000_0000_0000;
  }

  lemma {:induction false} Pow2Add(a: nat, b: nat)
    ensures Pow2(a + b) == Pow2(a) * Pow2(b)
  {
    if b > 0 {
      Pow2Add(a, b - 1);
      assert Pow2(a) * (2 * Pow2(b - 1)) == 2 * (Pow2(a) * Pow2(b - 1));
    }
  }

  lemma MulMonotone(x: nat, y: nat, b: nat)
    requires x <= y
    ensures x * b <= y * b
  {
    assert y * b == x * b + (y - x) * b;
  }

  lemma Quotient(x: nat, d: nat, q: nat)
    requires d >= 1 && q * d <= x < q * d + d
    ensures Div(x, d) == q
  {
    hide Div;
    var p := Div(x, d);
    if p < q {
      MulMonotone(p + 1, q, d);
    } else if q < p {
      MulMonotone(q + 1, p, d);
    }
  }

  lemma DivideTwice(n: nat, a: nat, b: nat, ab: nat)
    requires a >= 1 && b >= 1 && ab >= 1 && ab == a * b
    ensures Div(n, ab) == Div(Div(n, a), b)
  {
    hide Div;
    var x := Div(n, a);
    var q := Div(x, b);
    Regroup(q, b, a);
    MulMonotone(q * b, x, a);
    MulMonotone(x + 1, q * b + b, a);
    Quotient(n, ab, q);
  }

  lemma Regroup(q: nat, b: nat, a: nat)
    ensures q * b * a == q * (a * b) && (q * b + b) * a == q * (a * b) + a * b
  {
    assert q * b * a == q * (b * a);
    assert (q * b + b) * a == q * b * a + b * a;
  }

  /**
    The field, bit for bit: bit `k` of it is bit `lo + k` of the register, and it
    has no others.
   */
  lemma MaskIsField(v: bv64, lo: nat, width: nat, k: nat)
    ensures Mask(v, lo, width) < Pow2(width)
    ensures k < width ==> (Bit(Mask(v, lo, width), k) <==> BitSet(v, lo + k))
  {
    if k < width {
      FieldBit(v as nat, lo, width, k);
    }
  }

  lemma FieldBit(n: nat, lo: nat, width: nat, k: nat)
    requires k < width
    ensures Bit(Rem(Div(n, Pow2(lo)), Pow2(width)), k) <==> Bit(n, lo + k)
  {
    hide Div, Rem, Pow2;
    Pow2Add(lo, k);
    DivideTwice(n, Pow2(lo), Pow2(k), Pow2(lo + k));
    LowBits(Div(n, Pow2(lo)), width, k);
  }

  /** Cutting a number to `width` bits keeps each of them. */
  lemma LowBits(x: nat, width: nat, k: nat)
    requires k < width
    ensures Bit(Rem(x, Pow2(width)), k) <==> Bit(x, k)
  {
    Pow2Add(k, width - k);
    assert Pow2(width - k) == 2 * Pow2(width - k - 1);
    hide Div, Rem, Pow2;
    var q, r := Div(x, Pow2(width)), Rem(x, Pow2(width));
    var h := EvenPart(x, Pow2(k), Pow2(width - k - 1), Pow2(width), q, r);
    SameParity(h, Div(r, Pow2(k)));
  }

  lemma EvenPart(x: nat, d: nat, e: nat, w: nat, q: nat, r: nat) returns (h: nat)
    requires d >= 1 && w == d * (2 * e) && x == q * w + r
    ensures Div(x, d) == 2 * h + Div(r, d)
  {
    hide Div;
    var s := Div(r, d);
    h := q * e;
    Twice(q, d, e);
    Distribute(2 * h, s, d);
    Quotient(x, d, 2 * h + s);
  }

  lemma Distribute(a: nat, b: nat, d: nat)
    ensures (a + b) * d == a * d + b * d
  {
  }

  lemma SameParity(h: nat, s: nat)
    ensures (2 * h + s) % 2 == s % 2
  {
  }

  lemma Twice(q: nat, d: nat, e: nat)
    ensures q * (d * (2 * e)) == (2 * (q * e)) * d
  {
    assert d * (2 * e) == (2 * e) * d;
    assert q * ((2 * e) * d) == q * (2 * e) * d;
    assert q * (2 * e) == 2 * (q * e);
  }

  // ------------------------------------------------------------------ offsets, read straight from memory

  function Header(mem: Memory, f: Space, i: nat): bv64 { Reg(mem, f, i, 0) }

  function PpOffset(mem: Memory, f: Space, i: nat): nat { Mask(Header(mem, f, i), 24, 8) * 8 }

  function PpOffset0(mem: Memory, f: Space, i: nat): bv64 { Reg(mem, f, i, PpOffset(mem, f, i) + 8) }

  function PpOffset1(mem: Memory, f: Space, i: nat): bv64 { Reg(mem, f, i, PpOffset(mem, f, i) + 16) }

  function ControlOffset(mem: Memory, f: Space, i: nat): nat { PpOffset(mem, f, i) + 24 }

  function StatusOffset(mem: Memory, f: Space, i: nat): nat { PpOffset(mem, f, i) + 32 }

  function PpLevelOffset(mem: Memory, f: Space, i: nat, level: nat): nat
  {
    PpOffset(mem, f, i) + Mask(PpOffset1(mem, f, i), level * 8, 8) * 8
  }

  function PpInfo1(mem: Memory, f: Space, i: nat, level: nat): bv64
  {
    Reg(mem, f, i, PpLevelOffset(mem, f, i, level) + 8)
  }

  function PpInfo2(mem: Memory, f: Space, i: nat, level: nat): bv64
  {
    Reg(mem, f, i, PpLevelOffset(mem, f, i, level) + 16)
  }

  function BfInfoOffset(mem: Memory, f: Space, i: nat, level: nat): nat
  {
    PpLevelOffset(mem, f, i, level) + Mask(PpOffset0(mem, f, i), 8, 8) * 8
  }

  function TfInfoOffset(mem: Memory, f: Space, i: nat, level: nat): nat
  {
    PpLevelOffset(mem, f, i, level) + Mask(PpOffset0(mem, f, i), 16, 8) * 8
  }

  // ------------------------------------------------------------------ the register cache

  type Key = (nat, nat)

  /** Every cached value is what the register still holds. */
  predicate Coherent(cache: map<Key, bv64>, mem: Memory, f: Space) {
    forall k | k in cache :: cache[k] == Reg(mem, f, k.0, k.1)
  }

  /** A register write keeps the cache coherent if and only if it changes no cached register. */
  lemma WriteKeepsCoherentExactly(cache: map<Key, bv64>, mem: Memory, f: Space, address: nat, data: bv64)
    requires Coherent(cache, mem, f)
    ensures Coherent(cache, mem[address := data], f) <==>
            forall k | k in cache && Address(f, k.0, k.1) == address :: cache[k] == data
  {
    var mem' := mem[address := data];
    if Coherent(cache, mem', f) {
      forall k | k in cache && Address(f, k.0, k.1) == address ensures cache[k] == data {
        assert cache[k] == Reg(mem', f, k.0, k.1);
      }
    }
  }

  // ------------------------------------------------------------------ field updates

  /** The control registers of the first `n` of `instances` updated, in order. */
  function UpdateAll(mem: Memory, addresses: seq<nat>, fieldMask: bv64, value: bv64): Memory {
    if addresses == [] then mem else
    var before := UpdateAll(mem, addresses[..|addresses| - 1], fieldMask, value);
    var a := addresses[|addresses| - 1];
    before[a := Update(Load(before, a), fieldMask, value)]
  }

  /** Each listed register is updated once over, and nothing else changes. */
  lemma {:induction false} UpdateAllAt(mem: Memory, addresses: seq<nat>, m: bv64, v: bv64, a: nat)
    ensures Load(UpdateAll(mem, addresses, m, v), a) == if a in addresses then Update(Load(mem, a), m, v) else Load(mem, a)
  {
    hide Update, Confined;
    if addresses != [] {
      var n := |addresses| - 1;
      UpdateAllAt(mem, addresses[..n], m, v, a);
      UpdateIdempotent(Load(mem, a), m, v);
      assert a in addresses <==> a in addresses[..n] || a == addresses[n];
    }
  }

  /** Two features whose fields are disjoint can be switched in either order. */
  lemma UpdateAllCommutes(mem: Memory, addresses: seq<nat>, m1: bv64, v1: bv64, m2: bv64, v2: bv64, a: nat)
    requires m1 & m2 == 0 && Confined(m1, v1) && Confined(m2, v2)
    ensures Load(UpdateAll(UpdateAll(mem, addresses, m1, v1), addresses, m2, v2), a)
         == Load(UpdateAll(UpdateAll(mem, addresses, m2, v2), addresses, m1, v1), a)
  {
    hide Update, Confined;
    UpdateAllAt(mem, addresses, m1, v1, a);
    UpdateAllAt(mem, addresses, m2, v2, a);
    UpdateAllAt(UpdateAll(mem, addresses, m1, v1), addresses, m2, v2, a);
    UpdateAllAt(UpdateAll(mem, addresses, m2, v2), addresses, m1, v1, a);
    UpdatesCommute(Load(mem, a), m1, v1, m2, v2);
  }

  // ------------------------------------------------------------------ core lists

  /** convertMaskToList: the positions of the set bits from `b` on, ascending. */
  function BitList(v: bv64, b: nat): seq<nat>
    requires b <= 64
    decreases 64 - b
  {
    if b == 64 then [] else (if BitSet(v, b) then [b] else []) + BitList(v, b + 1)
  }

  /** `x += 64 * instance` on 32-bit core ids. */
  function Shifted(cores: seq<nat>, instance: nat): seq<nat> {
    seq(|cores|, k requires 0 <= k < |cores| => (cores[k] + 64 * instance) % TWO_32)
  }

  /** The compute instances: the valid ones up to the first that has no cores. */
  function Compute(valid: seq<nat>, counts: map<nat, nat>): (compute: seq<nat>)
    requires forall i | i in valid :: i in counts
    ensures forall i | i in compute :: i in valid
  {
    if valid == [] || counts[valid[0]] == 0 then [] else [valid[0]] + Compute(valid[1..], counts)
  }

  function CoreList(compute: seq<nat>, masks: map<nat, bv64>): seq<nat>
    requires forall i | i in compute :: i in masks
  {
    if compute == [] then [] else
    var n := |compute| - 1;
    CoreList(compute[..n], masks) + Shifted(BitList(masks[compute[n]], 0), compute[n])
  }

  predicate Ascending(s: seq<nat>) {
    forall j, k | 0 <= j < k < |s| :: s[j] < s[k]
  }

  lemma PutInFront(b: nat, there: bool, rest: seq<nat>)
    requires Ascending(rest) && forall k | k in rest :: b < k
    ensures var list := (if there then [b] else []) + rest;
            Ascending(list) && forall k :: k in list <==> (there && k == b) || k in rest
  {
    assert forall j | 0 <= j < |rest| :: rest[j] in rest;
  }

  lemma {:induction false} BitListExact(v: bv64, b: nat)
    requires b <= 64
    ensures Ascending(BitList(v, b))
    ensures forall k :: k in BitList(v, b) <==> b <= k < 64 && BitSet(v, k)
    decreases 64 - b
  {
    hide BitSet;
    if b < 64 {
      BitListExact(v, b + 1);
      PutInFront(b, BitSet(v, b), BitList(v, b + 1));
    }
  }

  /** In order, the compute instances are those valid ones up to which every valid one has cores. */
  lemma {:induction false} ComputeExact(valid: seq<nat>, counts: map<nat, nat>)
    requires Ascending(valid) && forall i | i in valid :: i in counts
    ensures Compute(valid, counts) <= valid
    ensures forall i :: i in Compute(valid, counts) <==>
              i in valid && forall j | j in valid && j <= i :: counts[j] != 0
  {
    if valid != [] {
      var rest := valid[1..];
      ComputeExact(rest, counts);
      assert forall i :: i in valid <==> i == valid[0] || i in rest;
      assert forall j | j in rest :: valid[0] < j by {
        assert forall k | 0 <= k < |rest| :: rest[k] == valid[k + 1];
      }
    }
  }

  /** No instance with a core names one whose id leaves 32 bits. */
  predicate IdsFit(instances: seq<nat>, masks: map<nat, bv64>)
    requires forall i | i in instances :: i in masks
  {
    forall i | i in instances && masks[i] != 0 :: i < TWO_32 / 64
  }

  lemma ZeroHasNoBits(k: nat)
    ensures !BitSet(0, k)
  {
    hide Div;
    Quotient(0, Pow2(k), 0);
  }

  lemma ZeroNamesNone()
    ensures BitList(0, 0) == []
  {
    BitListExact(0, 0);
    if BitList(0, 0) != [] {
      var k := BitList(0, 0)[0];
      assert k in BitList(0, 0);
      ZeroHasNoBits(k);
    }
  }

  /** The position of a set bit, by halving. */
  lemma {:induction false} SomeBit(n: nat, width: nat) returns (k: nat)
    requires 0 < n < Pow2(width)
    ensures k < width && Bit(n, k)
  {
    if n % 2 == 1 {
      k := 0;
    } else {
      k := SomeBit(n / 2, width - 1);
      DivideTwice(n, 2, Pow2(k), Pow2(k + 1));
      k := k + 1;
    }
  }

  lemma RegisterRange(v: bv64) returns (n: nat)
    ensures n == v as nat < Pow2(64) && (v != 0 ==> n > 0)
  {
    Pow2Values();
    n := v as nat;
  }

  lemma NonzeroHasBit(v: bv64)
    requires v != 0
    ensures exists k | 0 <= k < 64 :: BitSet(v, k)
  {
    var n := RegisterRange(v);
    var k := SomeBit(n, 64);
    assert BitSet(v, k);
  }

  lemma ShiftedHas(cores: seq<nat>, instance: nat, core: nat)
    requires core in cores && instance < TWO_32 / 64 && core < 64
    ensures core + 64 * instance in Shifted(cores, instance)
  {
    var k :| 0 <= k < |cores| && cores[k] == core;
    assert Shifted(cores, instance)[k] == core + 64 * instance;
  }

  lemma SplitId(c: nat, core: nat, instance: nat)
    requires c == core + 64 * instance && core < 64
    ensures c / 64 == instance && c % 64 == core
  {
  }

  lemma ShiftedIds(cores: seq<nat>, instance: nat)
    requires Ascending(cores) && instance < TWO_32 / 64 && forall k | 0 <= k < |cores| :: cores[k] < 64
    ensures var s := Shifted(cores, instance);
            Ascending(s) && forall c :: c in s <==> c / 64 == instance && c % 64 in cores
  {
    var s := Shifted(cores, instance);
    assert forall k | 0 <= k < |s| :: s[k] == cores[k] + 64 * instance;
    forall c ensures c in s <==> c / 64 == instance && c % 64 in cores {
      if c in s {
        var k :| 0 <= k < |s| && s[k] == c;
        SplitId(c, cores[k], instance);
      }
      if c / 64 == instance && c % 64 in cores {
        ShiftedHas(cores, instance, c % 64);
      }
    }
  }

  lemma ShiftedExact(v: bv64, instance: nat)
    requires v != 0 ==> instance < TWO_32 / 64
    ensures var s := Shifted(BitList(v, 0), instance);
            && Ascending(s)
            && forall c :: c in s <==> c / 64 == instance && BitSet(v, c % 64)
  {
    hide BitSet, BitList, Shifted;
    BitListExact(v, 0);
    var cores := BitList(v, 0);
    if v == 0 {
      NoneShifted(instance);
      forall k: nat | k < 64 ensures !BitSet(v, k) {
        ZeroHasNoBits(k);
      }
    } else {
      assert forall k | 0 <= k < |cores| :: cores[k] in cores;
      ShiftedIds(cores, instance);
    }
  }

  lemma NoneShifted(instance: nat)
    ensures Shifted(BitList(0, 0), instance) == []
  {
    ZeroNamesNone();
  }

  /**
    The gathered list is strictly increasing and names core `c` exactly when its
    instance `c / 64` is among the given ones and has bit `c % 64` set.
   */
  lemma {:induction false} CoreListExact(compute: seq<nat>, masks: map<nat, bv64>)
    requires Ascending(compute) && (forall i | i in compute :: i in masks) && IdsFit(compute, masks)
    ensures Ascending(CoreList(compute, masks))
    ensures forall c :: c in CoreList(compute, masks) <==> c / 64 in compute && BitSet(masks[c / 64], c % 64)
  {
    hide BitSet, Shifted, BitList;
    if compute != [] {
      var n := |compute| - 1;
      var init, i := compute[..n], compute[n];
      assert forall j | j in init :: j in compute && j < i;
      CoreListExact(init, masks);
      ShiftedExact(masks[i], i);
      AppendInstance(CoreList(init, masks), Shifted(BitList(masks[i], 0), i), init, i, masks);
      assert init + [i] == compute;
    }
  }

  lemma AppendInstance(a: seq<nat>, b: seq<nat>, init: seq<nat>, i: nat, masks: map<nat, bv64>)
    requires i in masks && forall j | j in init :: j in masks && j < i
    requires Ascending(a) && Ascending(b)
    requires forall c :: c in a <==> c / 64 in init && BitSet(masks[c / 64], c % 64)
    requires forall c :: c in b <==> c / 64 == i && BitSet(masks[i], c % 64)
    ensures Ascending(a + b)
    ensures forall c :: c in a + b <==> c / 64 in init + [i] && BitSet(masks[c / 64], c % 64)
  {
    hide BitSet;
    assert forall j :: j in init + [i] <==> j in init || j == i;
    forall j, k | 0 <= j < k < |a + b| ensures (a + b)[j] < (a + b)[k] {
      if j < |a| && k >= |a| {
        assert a[j] in a && b[k - |a|] in b;
        assert a[j] / 64 < i == b[k - |a|] / 64;
      }
    }
    forall c ensures c in a + b <==> c / 64 in init + [i] && BitSet(masks[c / 64], c % 64) {
      assert c in a + b <==> c in a || c in b;
    }
  }

  /** The ids named are those of core `b` of instance `i` for each compute instance `i` and each bit `b` of its mask. */
  ghost predicate NamesCores(cores: seq<nat>, valid: seq<nat>, counts: map<nat, nat>, masks: map<nat, bv64>)
    requires forall i | i in valid :: i in counts && i in masks
  {
    forall c: nat :: c in cores <==>
      && c / 64 in valid && (forall j | j in valid && j <= c / 64 :: counts[j] != 0)
      && BitSet(masks[c / 64], c % 64)
  }

  lemma {:induction false} IdsBelow(compute: seq<nat>, masks: map<nat, bv64>)
    requires forall i | i in compute :: i in masks
    ensures forall c | c in CoreList(compute, masks) :: c < TWO_32
  {
    hide BitList;
    if compute != [] {
      var n := |compute| - 1;
      IdsBelow(compute[..n], masks);
      var here := Shifted(BitList(masks[compute[n]], 0), compute[n]);
      assert forall c | c in here :: c < TWO_32 by {
        forall c | c in here ensures c < TWO_32 {
          var k :| 0 <= k < |here| && here[k] == c;
        }
      }
    }
  }

  /** A core whose id leaves 32 bits is not named by it. */
  lemma WideInstanceMissed(valid: seq<nat>, counts: map<nat, nat>, masks: map<nat, bv64>, i: nat)
    requires Ascending(valid) && forall i | i in valid :: i in counts && i in masks
    requires i in Compute(valid, counts) && masks[i] != 0 && i >= TWO_32 / 64
    ensures !NamesCores(CoreList(Compute(valid, counts), masks), valid, counts, masks)
  {
    hide BitSet, CoreList, Compute;
    ComputeExact(valid, counts);
    NonzeroHasBit(masks[i]);
    var b :| 0 <= b < 64 && BitSet(masks[i], b);
    var c := b + 64 * i;
    SplitId(c, b, i);
    IdsBelow(Compute(valid, counts), masks);
    assert c !in CoreList(Compute(valid, counts), masks);
  }

  /**
    `gatherCoreList`, end to end: the list is strictly increasing and names
    exactly the cores of the compute instances, if and only if the compute
    instances that have a core in their mask are numbered below 2^26.
   */
  lemma GatheredExactly(valid: seq<nat>, counts: map<nat, nat>, masks: map<nat, bv64>)
    requires Ascending(valid) && forall i | i in valid :: i in counts && i in masks
    ensures Compute(valid, counts) <= valid
    ensures var cores := CoreList(Compute(valid, counts), masks);
            Ascending(cores) && NamesCores(cores, valid, counts, masks) <==> IdsFit(Compute(valid, counts), masks)
  {
    hide BitSet, CoreList, Compute;
    var compute := Compute(valid, counts);
    ComputeExact(valid, counts);
    if IdsFit(compute, masks) {
      assert Ascending(compute);
      CoreListExact(compute, masks);
    } else {
      var i: nat :| i in compute && masks[i] != 0 && i >= TWO_32 / 64;
      WideInstanceMissed(valid, counts, masks, i);
    }
  }

  /** Without the bound on instances two dies would share core ids: here both name core 0. */
  lemma WideInstanceCollides()
    ensures CoreList([0, 0x400_0000], map[0 := 1, 0x400_0000 := 1]) == [0, 0]
  {
    hide BitList;
    var masks: map<nat, bv64> := map[0 := 1, 0x400_0000 := 1];
    OneBit();
    var s := [0, 0x400_0000];
    assert s[..1] == [0];
    assert CoreList([0], masks) == CoreList([], masks) + Shifted(BitList(1, 0), 0) by {
      assert [0][..0] == [];
    }
    assert Shifted([0], 0) == [0];
    assert Shifted([0], 0x400_0000) == [0];
  }

  lemma OneBit()
    ensures BitList(1, 0) == [0]
  {
    NoBitsAbove(1);
    assert Div(1, Pow2(0)) == 1;
  }

  lemma {:induction false} NoBitsAbove(k: nat)
    requires 0 < k <= 64
    ensures BitList(1, k) == []
    decreases 64 - k
  {
    if k < 64 {
      OneShifted(k);
      NoBitsAbove(k + 1);
    }
  }

  lemma OneShifted(k: nat)
    requires 0 < k < 64
    ensures !BitSet(1, k)
  {
    hide Div;
    Quotient(1, Pow2(k), 0);
  }
}
