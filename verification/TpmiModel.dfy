/**
  The D-Bus cache of the TPMI SST backend as a state machine on values: two maps
  kept up to date by signals, property replies and the completions of the
  property writes it issues itself, in whatever order the bus delivers them.
 */
module TpmiModel {
  import opened Options

  /** Cache of com.intel.TPMI */
  datatype Cpu = Cpu(address: nat, segment: nat, bus: nat, device: nat, function_: nat, bar: nat)

  /** Cache of com.intel.TPMI.Feature */
  datatype Feature = Feature(
    offset: nat, instances: nat, size: nat,
    enabled: bool, inBandWrite: bool, inBandRead: bool, usePcs: bool, locked: bool)
  {
    /** What `ready()` asks of a cached feature. */
    predicate Usable() { enabled && !usePcs }

    function With(property: Property, value: bool): Feature {
      match property
      case Enabled => this.(enabled := value)
      case InBandWrite => this.(inBandWrite := value)
      case InBandRead => this.(inBandRead := value)
      case UsePcs => this.(usePcs := value)
      case Locked => this.(locked := value)
    }
  }

  datatype Property = Enabled | InBandWrite | InBandRead | UsePcs | Locked

  /** A property write on its way to the bus. */
  datatype Write = Write(index: int, property: Property, value: bool)

  const SST_TPMI_ID := 5
  const INVALID_PATH_COMPONENT := -1

  datatype Path = Path(cpuIndex: int, featureId: int)

  /** An interface of a D-Bus object with its properties; `None` when they do not unpack. */
  datatype Interface = TpmiCpu(cpu: Option<Cpu>) | TpmiFeature(feature: Option<Feature>) | Other

  datatype Cache = Cache(cpus: map<int, Cpu>, features: map<int, Feature>, pending: seq<Write>)

  // ------------------------------------------------------------------ what each handler does

  function RemoveCpu(c: Cache, index: int): Cache { c.(cpus := c.cpus - {index}) }

  function RemoveFeature(c: Cache, index: int): Cache { c.(features := c.features - {index}) }

  function AddCpu(c: Cache, index: int, cpu: Option<Cpu>): Cache {
    match cpu
    case None => RemoveCpu(c, index)
    case Some(v) => c.(cpus := c.cpus[index := v])
  }

  function SetProperty(c: Cache, index: int, property: Property, value: bool): Cache {
    c.(pending := c.pending + [Write(index, property, value)])
  }

  function AddSstFeature(c: Cache, index: int, feature: Option<Feature>): Cache {
    if feature.None? then RemoveFeature(c, index) else
    var f := feature.value;
    if !f.enabled && f.locked then RemoveFeature(c, index) else
    var c1 := if f.enabled then c else SetProperty(c, index, Enabled, true);
    if f.usePcs && f.locked then RemoveFeature(c1, index) else
    var c2 := if f.usePcs then SetProperty(c1, index, UsePcs, false) else c1;
    c2.(features := c2.features[index := f])
  }

  function AddInterface(c: Cache, index: int, i: Interface): Cache {
    match i
    case TpmiCpu(cpu) => AddCpu(c, index, cpu)
    case TpmiFeature(feature) => AddSstFeature(c, index, feature)
    case Other => c
  }

  function RemoveInterface(c: Cache, index: int, i: Interface): Cache {
    match i
    case TpmiCpu(_) => RemoveCpu(c, index)
    case TpmiFeature(_) => RemoveFeature(c, index)
    case Other => c
  }

  /** The bus answers pending write `k`; the cache follows a success only. */
  function WriteDone(c: Cache, k: nat, ok: bool): Cache
    requires k < |c.pending|
  {
    var w := c.pending[k];
    var c1 := c.(pending := c.pending[..k] + c.pending[k + 1..]);
    if ok && w.index in c.features
    then c1.(features := c.features[w.index := c.features[w.index].With(w.property, w.value)])
    else c1
  }

  /** `features.at(index)` throws: a write succeeded for a feature no longer cached. */
  predicate Throws(c: Cache, k: nat, ok: bool)
    requires k < |c.pending|
  {
    ok && c.pending[k].index !in c.features
  }

  /** `ready()` */
  predicate Ready(c: Cache, index: int) {
    index in c.cpus && index in c.features && c.features[index].Usable()
  }

  // ------------------------------------------------------------------ runs

  /** One interface added to or removed from an object, or the answer to pending write `k`. */
  datatype Event = Add(index: int, added: Interface) | Remove(index: int, removed: Interface) | Done(k: nat, ok: bool)

  function Step(c: Cache, e: Event): Cache {
    match e
    case Add(index, i) => AddInterface(c, index, i)
    case Remove(index, i) => RemoveInterface(c, index, i)
    case Done(k, ok) => if k < |c.pending| then WriteDone(c, k, ok) else c
  }

  function Run(c: Cache, es: seq<Event>): Cache {
    if es == [] then c else Step(Run(c, es[..|es| - 1]), es[|es| - 1])
  }

  lemma RunSnoc(c: Cache, es: seq<Event>, e: Event)
    ensures Run(c, es + [e]) == Step(Run(c, es), e)
  {
    assert (es + [e])[..|es|] == es;
  }

  /** An InterfacesAdded signal is the run of its interfaces in order. */
  function Adds(index: int, interfaces: seq<Interface>): seq<Event> {
    seq(|interfaces|, i requires 0 <= i < |interfaces| => Add(index, interfaces[i]))
  }

  function Removes(index: int, interfaces: seq<Interface>): seq<Event> {
    seq(|interfaces|, i requires 0 <= i < |interfaces| => Remove(index, interfaces[i]))
  }

  const EMPTY := Cache(map[], map[], [])

  // ------------------------------------------------------------------ readiness

  /** Nothing but "enable" and "do not use PCS" is ever written. */
  predicate OwnWrite(w: Write) {
    (w.property == Enabled && w.value) || (w.property == UsePcs && !w.value)
  }

  lemma {:induction false} OwnWritesOnly(es: seq<Event>)
    ensures forall w | w in Run(EMPTY, es).pending :: OwnWrite(w)
  {
    if es != [] {
      OwnWritesOnly(es[..|es| - 1]);
    }
  }

  /** The writes that make a feature usable. */
  function NeededWrites(index: int, f: Feature): seq<Write> {
    (if f.enabled then [] else [Write(index, Enabled, true)]) + (if f.usePcs then [Write(index, UsePcs, false)] else [])
  }

  /** The event adds or removes the feature of CPU `i`. */
  predicate NamesFeature(e: Event, i: int) {
    (e.Add? && e.index == i && e.added.TpmiFeature?) || (e.Remove? && e.index == i && e.removed.TpmiFeature?)
  }

  predicate NamesCpu(e: Event, i: int) {
    (e.Add? && e.index == i && e.added.TpmiCpu?) || (e.Remove? && e.index == i && e.removed.TpmiCpu?)
  }

  /** Where the run last adds or removes the feature of CPU `i`. */
  function LastFeature(es: seq<Event>, i: int): (r: Option<nat>)
    ensures r.Some? ==> r.value < |es| && NamesFeature(es[r.value], i)
    ensures forall m | (if r.Some? then r.value else -1) < m < |es| :: !NamesFeature(es[m], i)
  {
    if es == [] then None else
    var n := |es| - 1;
    if NamesFeature(es[n], i) then Some(n) else LastFeature(es[..n], i)
  }

  function LastCpu(es: seq<Event>, i: int): (r: Option<nat>)
    ensures r.Some? ==> r.value < |es| && NamesCpu(es[r.value], i)
    ensures forall m | (if r.Some? then r.value else -1) < m < |es| :: !NamesCpu(es[m], i)
  {
    if es == [] then None else
    var n := |es| - 1;
    if NamesCpu(es[n], i) then Some(n) else LastCpu(es[..n], i)
  }

  /** The last event for the CPU adds it with properties that unpack. */
  predicate CpuAdded(es: seq<Event>, i: int) {
    var n := LastCpu(es, i);
    n.Some? && es[n.value].Add? && es[n.value].added.cpu.Some?
  }

  /** The last event for the feature adds it, with properties that unpack and are not locked in an unusable state. */
  predicate FeatureAdded(es: seq<Event>, i: int) {
    var n := LastFeature(es, i);
    && n.Some? && es[n.value].Add? && es[n.value].added.feature.Some?
    && var f := es[n.value].added.feature.value;
       (f.locked ==> f.enabled && !f.usePcs)
  }

  /**
    Over every run, a CPU is cached if and only if the last event for it adds it
    with properties that unpack, and then with those.
   */
  lemma {:induction false} CpuFollows(es: seq<Event>, i: int)
    ensures i in Run(EMPTY, es).cpus <==> CpuAdded(es, i)
    ensures CpuAdded(es, i) ==> Run(EMPTY, es).cpus[i] == es[LastCpu(es, i).value].added.cpu.value
  {
    if es != [] {
      CpuFollows(es[..|es| - 1], i);
      CpuStep(Run(EMPTY, es[..|es| - 1]), es[|es| - 1], i);
    }
  }

  lemma CpuStep(c: Cache, e: Event, i: int)
    ensures var t := Step(c, e);
            if NamesCpu(e, i) then
              && (i in t.cpus <==> e.Add? && e.added.cpu.Some?)
              && (i in t.cpus ==> t.cpus[i] == e.added.cpu.value)
            else
              (i in t.cpus <==> i in c.cpus) && (i in t.cpus ==> t.cpus[i] == c.cpus[i])
  {
  }

  /** Over every run, a feature is cached if and only if the last event for it adds it in a state that can be used or changed. */
  lemma {:induction false} FeaturePresentExactly(es: seq<Event>, i: int)
    ensures i in Run(EMPTY, es).features <==> FeatureAdded(es, i)
  {
    if es != [] {
      FeaturePresentExactly(es[..|es| - 1], i);
      PresenceStep(Run(EMPTY, es[..|es| - 1]), es[|es| - 1], i);
    }
  }

  lemma PresenceStep(c: Cache, e: Event, i: int)
    ensures i in Step(c, e).features <==>
            if NamesFeature(e, i)
            then e.Add? && e.added.feature.Some? &&
                 (e.added.feature.value.locked ==> e.added.feature.value.enabled && !e.added.feature.value.usePcs)
            else i in c.features
  {
  }

  /** Event `m` is the answer `ok` to the write `w`. */
  predicate Answers(es: seq<Event>, m: nat, w: Write, ok: bool)
    requires m < |es|
  {
    var c, e := Run(EMPTY, es[..m]), es[m];
    e.Done? && e.ok == ok && e.k < |c.pending| && c.pending[e.k] == w
  }

  predicate AnsweredSince(es: seq<Event>, n: nat, w: Write, ok: bool) {
    exists m :: n < m < |es| && Answers(es, m, w, ok)
  }

  lemma AnsweredSnoc(es: seq<Event>, n: nat, w: Write, ok: bool)
    requires es != []
    ensures var last := |es| - 1;
            AnsweredSince(es, n, w, ok) <==>
            AnsweredSince(es[..last], n, w, ok) || (n < last && Answers(es, last, w, ok))
  {
    hide Run;
    var last := |es| - 1;
    forall m | 0 <= m < last ensures Answers(es, m, w, ok) <==> Answers(es[..last], m, w, ok) {
      assert es[..last][..m] == es[..m];
    }
    if AnsweredSince(es, n, w, ok) {
      var m :| n < m < |es| && Answers(es, m, w, ok);
      assert m < last ==> Answers(es[..last], m, w, ok);
    }
    if AnsweredSince(es[..last], n, w, ok) {
      var m :| n < m < last && Answers(es[..last], m, w, ok);
      assert Answers(es, m, w, ok);
    }
  }

  /** What the cached feature `g` owes to the feature `f` read at event `n`. */
  predicate Follows(es: seq<Event>, i: int, n: nat, f: Feature, g: Feature) {
    var enable, noPcs := Write(i, Enabled, true), Write(i, UsePcs, false);
    && (g.enabled <==> f.enabled || AnsweredSince(es, n, enable, true))
    && (!g.usePcs <==> !f.usePcs || AnsweredSince(es, n, noPcs, true))
    && g == f.(enabled := g.enabled, usePcs := g.usePcs)
    && (f.locked ==> f.Usable())
  }

  /** A needed write is pending or has been answered. */
  predicate Underway(es: seq<Event>, n: nat, w: Write, pending: seq<Write>) {
    w in pending || AnsweredSince(es, n, w, true) || AnsweredSince(es, n, w, false)
  }

  /** An event that does not name the feature keeps it, apart from what a successful answer writes. */
  lemma OtherEvent(c: Cache, e: Event, i: int)
    requires !NamesFeature(e, i) && i in Step(c, e).features
    ensures i in c.features
    ensures Step(c, e).features[i] ==
            if e.Done? && e.ok && e.k < |c.pending| && c.pending[e.k].index == i
            then c.features[i].With(c.pending[e.k].property, c.pending[e.k].value) else c.features[i]
  {
  }

  lemma StillPending(c: Cache, e: Event, w: Write)
    requires w in c.pending
    ensures w in Step(c, e).pending || (e.Done? && e.k < |c.pending| && c.pending[e.k] == w)
  {
    if e.Done? && e.k < |c.pending| {
      var j :| 0 <= j < |c.pending| && c.pending[j] == w;
      var t := Step(c, e);
      if j < e.k { assert t.pending[j] == w; } else if j > e.k { assert t.pending[j - 1] == w; }
    }
  }

  lemma UnderwayStays(es: seq<Event>, n: nat, w: Write)
    requires es != [] && n < |es| - 1
    requires Underway(es[..|es| - 1], n, w, Run(EMPTY, es[..|es| - 1]).pending)
    ensures Underway(es, n, w, Run(EMPTY, es).pending)
  {
    hide Step;
    var last := |es| - 1;
    var c := Run(EMPTY, es[..last]);
    AnsweredSnoc(es, n, w, true);
    AnsweredSnoc(es, n, w, false);
    if w in c.pending {
      StillPending(c, es[last], w);
    }
  }

  lemma FollowsStays(es: seq<Event>, i: int, n: nat, f: Feature)
    requires es != [] && n < |es| - 1 && !NamesFeature(es[|es| - 1], i)
    requires i in Run(EMPTY, es).features && i in Run(EMPTY, es[..|es| - 1]).features
    requires Follows(es[..|es| - 1], i, n, f, Run(EMPTY, es[..|es| - 1]).features[i])
    ensures Follows(es, i, n, f, Run(EMPTY, es).features[i])
  {
    hide Step, AnsweredSince;
    var last := |es| - 1;
    var c, e := Run(EMPTY, es[..last]), es[last];
    OtherEvent(c, e, i);
    OwnWritesOnly(es[..last]);
    AnsweredSnoc(es, n, Write(i, Enabled, true), true);
    AnsweredSnoc(es, n, Write(i, UsePcs, false), true);
    if e.Done? && e.ok && e.k < |c.pending| && c.pending[e.k].index == i {
      var w := c.pending[e.k];
      assert OwnWrite(w);
      assert w == Write(i, Enabled, true) || w == Write(i, UsePcs, false);
    }
  }

  lemma JustRead(es: seq<Event>, i: int)
    requires es != [] && NamesFeature(es[|es| - 1], i) && i in Run(EMPTY, es).features
    ensures es[|es| - 1].added.feature.Some?
    ensures var n := |es| - 1;
            var f := es[n].added.feature.value;
            && Follows(es, i, n, f, Run(EMPTY, es).features[i])
            && forall w | w in NeededWrites(i, f) :: Underway(es, n, w, Run(EMPTY, es).pending)
  {
    FeatureCachedExactly(Run(EMPTY, es[..|es| - 1]), i, es[|es| - 1].added.feature);
  }

  /**
    Over every run, a cached feature is the one last read, except that enabling
    it and turning PCS off have taken effect exactly where such a write has been
    answered with success since; a write it needs is pending or answered.
   */
  lemma {:induction false} FeatureFollows(es: seq<Event>, i: int)
    requires i in Run(EMPTY, es).features
    ensures FeatureAdded(es, i)
    ensures var n := LastFeature(es, i).value;
            var f := es[n].added.feature.value;
            && Follows(es, i, n, f, Run(EMPTY, es).features[i])
            && forall w | w in NeededWrites(i, f) :: Underway(es, n, w, Run(EMPTY, es).pending)
  {
    hide Step, AnsweredSince, Follows, NeededWrites;
    var last := |es| - 1;
    var before, e := es[..last], es[last];
    var c := Run(EMPTY, before);
    FeaturePresentExactly(es, i);
    if NamesFeature(e, i) {
      JustRead(es, i);
    } else {
      OtherEvent(c, e, i);
      FeatureFollows(before, i);
      var n := LastFeature(before, i).value;
      assert es[n] == before[n];
      var f := es[n].added.feature.value;
      FollowsStays(es, i, n, f);
      forall w | w in NeededWrites(i, f) ensures Underway(es, n, w, Run(EMPTY, es).pending) {
        UnderwayStays(es, n, w);
      }
    }
  }

  /** Over every run, a cached feature is never locked while disabled or using PCS. */
  lemma NeverLockedOut(es: seq<Event>, i: int)
    requires i in Run(EMPTY, es).features && Run(EMPTY, es).features[i].locked
    ensures Run(EMPTY, es).features[i].Usable()
  {
    hide Run;
    FeatureFollows(es, i);
  }

  /**
    Over every run, a CPU is ready if and only if the last event for it added it,
    the last event for its feature added that, and every write the feature then
    needed has been answered with success since.
   */
  lemma ReadyExactly(es: seq<Event>, i: int)
    ensures Ready(Run(EMPTY, es), i) <==>
            && CpuAdded(es, i) && FeatureAdded(es, i)
            && var n := LastFeature(es, i).value;
               forall w | w in NeededWrites(i, es[n].added.feature.value) :: AnsweredSince(es, n, w, true)
  {
    hide Run, AnsweredSince, LastFeature, LastCpu;
    CpuFollows(es, i);
    FeaturePresentExactly(es, i);
    if FeatureAdded(es, i) {
      FeatureFollows(es, i);
      NeededWritesAre(i, es[LastFeature(es, i).value].added.feature.value);
    }
  }

  lemma NeededWritesAre(i: int, f: Feature)
    ensures forall w :: w in NeededWrites(i, f) <==>
              (w == Write(i, Enabled, true) && !f.enabled) || (w == Write(i, UsePcs, false) && f.usePcs)
  {
  }

  /**
    Once no writes are pending, a CPU added with its feature is unready exactly
    when, since the feature was added, some write it needed has been answered,
    but only with failures; where none has failed, it is ready.
   */
  lemma QuiescentReady(es: seq<Event>, i: int)
    requires Run(EMPTY, es).pending == []
    ensures CpuAdded(es, i) && FeatureAdded(es, i) ==>
              var n := LastFeature(es, i).value;
              (!Ready(Run(EMPTY, es), i) <==>
               exists w | w in NeededWrites(i, es[n].added.feature.value) ::
                 AnsweredSince(es, n, w, false) && !AnsweredSince(es, n, w, true))
  {
    hide Run, AnsweredSince, Ready, LastFeature, LastCpu;
    ReadyExactly(es, i);
    FeaturePresentExactly(es, i);
    if CpuAdded(es, i) && FeatureAdded(es, i) {
      FeatureFollows(es, i);
      var n := LastFeature(es, i).value;
      assert forall w | w in NeededWrites(i, es[n].added.feature.value) :: Underway(es, n, w, []);
    }
  }

  /** The exception is real: after one failed write the feature stays cached, idle and unready. */
  lemma FailedWriteStaysUnready(cpu: Cpu, f: Feature)
    requires !f.enabled && !f.locked && !f.usePcs
    ensures var c := Run(EMPTY, [Add(0, TpmiCpu(Some(cpu))), Add(0, TpmiFeature(Some(f))), Done(0, false)]);
            c.pending == [] && 0 in c.cpus && 0 in c.features && !Ready(c, 0)
  {
    var es := [Add(0, TpmiCpu(Some(cpu))), Add(0, TpmiFeature(Some(f))), Done(0, false)];
    assert es[..1] == [] + [es[0]] && es[..2] == es[..1] + [es[1]] && es == es[..2] + [es[2]];
    RunSnoc(EMPTY, [], es[0]);
    RunSnoc(EMPTY, es[..1], es[1]);
    RunSnoc(EMPTY, es[..2], es[2]);
    var c2 := Run(EMPTY, es[..2]);
    assert c2.pending == [Write(0, Enabled, true)];
  }

  /**
    A feature is cached, as it was read, exactly when it unpacks and is not
    locked in an unusable state; the writes it needs are then on their way, and
    for a rejected one none is.
   */
  lemma FeatureCachedExactly(c: Cache, index: int, feature: Option<Feature>)
    ensures var t := AddSstFeature(c, index, feature);
            && (index in t.features <==> feature.Some? && (feature.value.locked ==> feature.value.Usable()))
            && (if index in t.features
                then t.features[index] == feature.value && t.pending == c.pending + NeededWrites(index, feature.value)
                else t.pending == c.pending)
  {
  }

  // ------------------------------------------------------------------ the throwing completion

  /** Every pending write is for a cached feature. */
  predicate NoOrphans(c: Cache) {
    forall w | w in c.pending :: w.index in c.features
  }

  /** The event drops a feature that has a write pending. */
  predicate DropsPending(c: Cache, e: Event) {
    exists w | w in c.pending :: w.index in c.features && w.index !in Step(c, e).features
  }

  /** Some answer that may come next makes its completion throw. */
  predicate CanThrow(c: Cache) {
    exists k: nat | k < |c.pending| :: Throws(c, k, true)
  }

  lemma CanThrowWithOrphan(c: Cache)
    ensures CanThrow(c) <==> !NoOrphans(c)
  {
    if !NoOrphans(c) {
      var w :| w in c.pending && w.index !in c.features;
      var k :| 0 <= k < |c.pending| && c.pending[k] == w;
      assert Throws(c, k, true);
    }
  }

  /** An orphan arises exactly where an event drops a feature that has a write pending. */
  lemma OrphanArises(c: Cache, e: Event)
    requires NoOrphans(c)
    ensures NoOrphans(Step(c, e)) <==> !DropsPending(c, e)
  {
    var t := Step(c, e);
    if DropsPending(c, e) {
      var w :| w in c.pending && w.index in c.features && w.index !in t.features;
      assert w in t.pending;
    } else {
      forall w | w in t.pending ensures w.index in t.features {
        if w in c.pending {
          assert w.index in c.features;
        }
      }
    }
  }

  lemma NothingPending()
    ensures NoOrphans(EMPTY)
  {
  }

  lemma RunUpTo(es: seq<Event>, n: nat)
    requires n < |es|
    ensures Run(EMPTY, es[..n + 1]) == Step(Run(EMPTY, es[..n]), es[n])
  {
    assert es[..n + 1] == es[..n] + [es[n]];
    RunSnoc(EMPTY, es[..n], es[n]);
  }

  lemma {:induction false} NoOrphansThroughout(es: seq<Event>, n: nat)
    requires n <= |es| && forall m | 0 <= m < n :: !DropsPending(Run(EMPTY, es[..m]), es[m])
    ensures NoOrphans(Run(EMPTY, es[..n]))
  {
    if n == 0 {
      assert es[..0] == [];
      NothingPending();
    } else {
      hide Run, Step, DropsPending, NoOrphans;
      NoOrphansThroughout(es, n - 1);
      RunUpTo(es, n - 1);
      OrphanArises(Run(EMPTY, es[..n - 1]), es[n - 1]);
    }
  }

  /**
    Over every run: no completion can throw at any point of it if and only if no
    event of it drops a feature that has a write pending.
   */
  lemma NeverThrowsExactly(es: seq<Event>)
    ensures (forall n | 0 <= n <= |es| :: !CanThrow(Run(EMPTY, es[..n])))
            <==> forall n | 0 <= n < |es| :: !DropsPending(Run(EMPTY, es[..n]), es[n])
  {
    hide Run, Step, CanThrow, DropsPending, NoOrphans;
    if forall n | 0 <= n < |es| :: !DropsPending(Run(EMPTY, es[..n]), es[n]) {
      forall n | 0 <= n <= |es| ensures !CanThrow(Run(EMPTY, es[..n])) {
        NoOrphansThroughout(es, n);
        CanThrowWithOrphan(Run(EMPTY, es[..n]));
      }
    }
    if forall n | 0 <= n <= |es| :: !CanThrow(Run(EMPTY, es[..n])) {
      forall n | 0 <= n < |es| ensures !DropsPending(Run(EMPTY, es[..n]), es[n]) {
        CanThrowWithOrphan(Run(EMPTY, es[..n]));
        CanThrowWithOrphan(Run(EMPTY, es[..n + 1]));
        RunUpTo(es, n);
        OrphanArises(Run(EMPTY, es[..n]), es[n]);
      }
    }
  }

  /** It does happen: a feature removed while it is being enabled makes the completion throw. */
  lemma RemovedFeatureThrows(f: Feature)
    requires !f.enabled && !f.locked
    ensures var c := Run(EMPTY, [Add(0, TpmiFeature(Some(f))), Remove(0, TpmiFeature(None))]);
            c.pending != [] && Throws(c, 0, true)
  {
    var es := [Add(0, TpmiFeature(Some(f))), Remove(0, TpmiFeature(None))];
    assert es[..1] == [] + [es[0]] && es == es[..1] + [es[1]];
    RunSnoc(EMPTY, [], es[0]);
    RunSnoc(EMPTY, es[..1], es[1]);
  }

  /** An event for one CPU leaves the cached data of every other CPU alone. */
  lemma OtherCpusUntouched(c: Cache, e: Event, j: int)
    requires match e case Add(i, _) => i != j case Remove(i, _) => i != j
                     case Done(k, _) => k < |c.pending| && c.pending[k].index != j
    ensures var t := Step(c, e);
            && (j in t.cpus <==> j in c.cpus) && (j in c.cpus ==> t.cpus[j] == c.cpus[j])
            && (j in t.features <==> j in c.features) && (j in c.features ==> t.features[j] == c.features[j])
  {
  }
}
