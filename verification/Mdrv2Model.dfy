/**
  The table directory of the MDRv2 commands: a lock and a stage per entry, for
  two agents, and the range logic of the block read. A state machine on values;
  class `Directory` in Mdrv2.dfy updates the directory itself.
 */
module Mdrv2Model {
  import opened Options

  const MAX_DIR_ENTRIES := 4
  const AGENTS := 2
  const ACPI := 0
  const SMBIOS := 1
  const UINT_MAX := 0xFFFF_FFFF
  const SMBIOS_TABLE_STORAGE_SIZE := 64 * 1024
  const XFER_SIZE := 1024 * 1024
  const INVALID_CHECKSUM := 0xFFFF_FFFF

  datatype Stage = Init | Loaded | Updated | Updating

  datatype Entry = Entry(
    stage: Stage, locked: bool, lockHandle: nat,
    size: nat, xferSize: nat, storage: seq<byte>)

  /** `Mdr2DirStruct`: four entries, of which the first `dirEntries` are in use. */
  datatype Agent = Agent(dirEntries: nat, dir: seq<Entry>) {
    predicate Valid() {
      |dir| == MAX_DIR_ENTRIES && dirEntries <= MAX_DIR_ENTRIES
    }
  }

  /** One entry in use, not yet initialised, with its table storage; the others are zero and have no storage. */
  function InitialAgent(storage: seq<byte>): Agent {
    var unused := Entry(Init, false, 0, 0, 0, []);
    Agent(1, [Entry(Init, false, 0, 0, XFER_SIZE, storage), unused, unused, unused])
  }

  // ------------------------------------------------------------------ one entry

  /** `smbiosTryLock`: the entry it leaves behind, or `None` when it refuses. `handle` is the fresh session handle. */
  function TryLock(e: Entry, flag: bool, handle: nat): Option<Entry> {
    match e.stage
    case Updating =>
      if e.locked then None else Some(e.(locked := true, lockHandle := handle))
    case Init =>
      if flag then Some(e.(stage := Updating, locked := false, lockHandle := handle)) else None
    case _ =>
      if e.locked then None
      else if flag then Some(e.(stage := Updating, locked := false, lockHandle := handle))
      else Some(e.(locked := true, lockHandle := handle))
  }

  /** `smbiosUnlock`: `None` where it returns false. */
  function Unlock(e: Entry): Option<Entry> {
    match e.stage
    case Updating => Some(e.(stage := Updated, locked := false, lockHandle := 0))
    case Updated => Some(e.(locked := false, lockHandle := 0))
    case Loaded => Some(e.(locked := false, lockHandle := 0))
    case Init => None
  }

  // ------------------------------------------------------------------ the commands

  /**
    A fresh session handle comes with each attempt to lock. `areaMapped` is false
    where mapping shared memory throws, `synced` where the directory service
    does not take the new size.
   */
  datatype Command =
    | LockData(agent: nat, index: nat, handle: nat)
    | DataStart(agent: nat, index: nat, handle: nat, length: nat, areaMapped: bool, synced: bool)
    | Release(agent: nat, lockHandle: nat)

  predicate ValidState(s: seq<Agent>) {
    |s| == AGENTS && forall i | 0 <= i < |s| :: s[i].Valid()
  }

  predicate InRange(c: Command) {
    c.agent < AGENTS && (!c.Release? ==> c.index < MAX_DIR_ENTRIES)
  }

  /** `findLockHandle`: the first entry in use with that handle. */
  function FindLockHandle(a: Agent, lockHandle: nat, from: nat): (r: Option<nat>)
    requires a.Valid() && from <= a.dirEntries
    ensures r.Some? ==> from <= r.value < a.dirEntries && a.dir[r.value].lockHandle == lockHandle
    ensures r.Some? ==> forall j | from <= j < r.value :: a.dir[j].lockHandle != lockHandle
    ensures r.None? ==> forall j | from <= j < a.dirEntries :: a.dir[j].lockHandle != lockHandle
    decreases a.dirEntries - from
  {
    if from == a.dirEntries then None
    else if a.dir[from].lockHandle == lockHandle then Some(from)
    else FindLockHandle(a, lockHandle, from + 1)
  }

  function Put(s: seq<Agent>, agent: nat, index: nat, e: Entry): (t: seq<Agent>)
    requires ValidState(s) && agent < AGENTS && index < MAX_DIR_ENTRIES
    ensures ValidState(t)
  {
    s[agent := s[agent].(dir := s[agent].dir[index := e])]
  }

  lemma PutTwice(s: seq<Agent>, agent: nat, index: nat, e: Entry, e': Entry)
    requires ValidState(s) && agent < AGENTS && index < MAX_DIR_ENTRIES
    ensures Put(Put(s, agent, index, e), agent, index, e') == Put(s, agent, index, e')
  {
    assert s[agent].dir[index := e][index := e'] == s[agent].dir[index := e'];
  }

  /** What data start does with the entry; the length has been checked. */
  function Start(e: Entry, handle: nat, length: nat, areaMapped: bool): Option<Entry> {
    match TryLock(e, true, handle)
    case None => None
    case Some(locked) =>
      if !areaMapped then Unlock(locked)
      else Some(locked.(size := length, lockHandle := handle))
  }

  /** The ACPI agent is initialised with its override flag set and no service paths. */
  predicate HasService(agent: nat) { agent == SMBIOS }

  /** The state after a command and whether it reported success. */
  function Apply(s: seq<Agent>, c: Command): (r: (seq<Agent>, bool))
    requires ValidState(s) && InRange(c)
    ensures ValidState(r.0)
  {
    match c
    case LockData(agent, index, handle) =>
      (match TryLock(s[agent].dir[index], false, handle)
       case None => (s, false)
       case Some(e) => (Put(s, agent, index, e), true))
    case DataStart(agent, index, handle, length, areaMapped, synced) =>
      if length > SMBIOS_TABLE_STORAGE_SIZE then (s, false) else
      (match Start(s[agent].dir[index], handle, length, areaMapped)
       case None => (s, false)
       case Some(e) => (Put(s, agent, index, e), areaMapped && (HasService(agent) ==> synced)))
    case Release(agent, lockHandle) =>
      (match FindLockHandle(s[agent], lockHandle, 0)
       case None => (s, false)
       case Some(index) =>
         match Unlock(s[agent].dir[index])
         case None => (s, false)
         case Some(e) => (Put(s, agent, index, e), true))
  }

  function Run(s: seq<Agent>, cs: seq<Command>): (t: seq<Agent>)
    requires ValidState(s) && forall c | c in cs :: InRange(c)
    ensures ValidState(t)
  {
    if cs == [] then s else Apply(Run(s, cs[..|cs| - 1]), cs[|cs| - 1]).0
  }

  // ------------------------------------------------------------------ locks and stages

  /**
    What a granted lock is worth: the entry then refuses every other attempt
    exactly when the lock was not taken for a new update.
   */
  lemma LockProtectsExactly(e: Entry, flag: bool, handle: nat)
    requires TryLock(e, flag, handle).Some?
    ensures var held := TryLock(e, flag, handle).value;
            (forall f, h :: TryLock(held, f, h).None?) <==> !flag || e.stage == Updating
  {
    var held := TryLock(e, flag, handle).value;
    if flag && e.stage != Updating {
      assert TryLock(held, true, 0).Some?;
    }
  }

  /** Some host holds a read lock or has an update under way. */
  predicate InSession(e: Entry) {
    e.locked || e.stage == Updating
  }

  /** The rules that every command keeps for the entries in use. */
  predicate EntryOk(e: Entry) {
    && (e.stage == Init ==> !e.locked && e.lockHandle == 0)
    && (InSession(e) <==> e.lockHandle != 0)
    && e.size <= SMBIOS_TABLE_STORAGE_SIZE <= |e.storage|
  }

  /** Handles in use differ within an agent. */
  predicate HandlesDiffer(a: Agent)
    requires a.Valid()
  {
    forall i, j | 0 <= i < j < a.dirEntries :: a.dir[i].lockHandle == a.dir[j].lockHandle ==> a.dir[i].lockHandle == 0
  }

  predicate StateOk(s: seq<Agent>) {
    ValidState(s) && forall a | 0 <= a < |s| :: HandlesDiffer(s[a]) && forall i | 0 <= i < s[a].dirEntries :: EntryOk(s[a].dir[i])
  }

  /** The session handle is nonzero and not in use. */
  predicate Fresh(s: seq<Agent>, c: Command)
    requires ValidState(s) && InRange(c)
  {
    !c.Release? ==> c.handle != 0 && forall i | 0 <= i < |s[c.agent].dir| :: s[c.agent].dir[i].lockHandle != c.handle
  }

  predicate FreshThroughout(s: seq<Agent>, cs: seq<Command>)
    requires ValidState(s) && forall c | c in cs :: InRange(c)
  {
    forall i | 0 <= i < |cs| :: Fresh(Run(s, cs[..i]), cs[i])
  }

  lemma PutOk(s: seq<Agent>, agent: nat, index: nat, e: Entry)
    requires StateOk(s) && agent < AGENTS && index < MAX_DIR_ENTRIES && (index < s[agent].dirEntries ==> EntryOk(e))
    requires e.lockHandle == 0 || forall i | 0 <= i < |s[agent].dir| :: s[agent].dir[i].lockHandle != e.lockHandle
    ensures StateOk(Put(s, agent, index, e))
  {
    var dir := s[agent].dir[index := e];
    assert HandlesDiffer(s[agent].(dir := dir)) by {
      assert HandlesDiffer(s[agent]);
    }
    assert forall i | 0 <= i < s[agent].dirEntries :: EntryOk(s[agent].dir[i]);
  }

  lemma ApplyOk(s: seq<Agent>, c: Command)
    requires ValidState(s) && StateOk(s) && InRange(c) && Fresh(s, c)
    ensures StateOk(Apply(s, c).0)
  {
    hide StateOk, Put, HandlesDiffer;
    var i := if c.Release? then FindLockHandle(s[c.agent], c.lockHandle, 0).GetOr(0) else c.index;
    if i < s[c.agent].dirEntries {
      EntryIsOk(s, c.agent, i);
    }
    var t := Apply(s, c).0;
    if t != s {
      var e: Entry :| t == Put(s, c.agent, i, e) && (i < s[c.agent].dirEntries ==> EntryOk(e)) && (e.lockHandle == 0 || (!c.Release? && e.lockHandle == c.handle));
      PutOk(s, c.agent, i, e);
    }
  }

  lemma EntryIsOk(s: seq<Agent>, agent: nat, index: nat)
    requires StateOk(s) && agent < AGENTS && index < s[agent].dirEntries
    ensures EntryOk(s[agent].dir[index])
  {
  }

  /** Over every run with fresh handles the entries keep their rules, on both agents. */
  lemma {:induction false} AlwaysOk(s: seq<Agent>, cs: seq<Command>)
    requires ValidState(s) && StateOk(s) && (forall c | c in cs :: InRange(c)) && FreshThroughout(s, cs)
    ensures StateOk(Run(s, cs))
  {
    hide StateOk, Apply, Fresh;
    if cs != [] {
      var n := |cs| - 1;
      forall i | 0 <= i < n ensures Fresh(Run(s, cs[..n][..i]), cs[..n][i]) {
        assert cs[..n][..i] == cs[..i];
      }
      AlwaysOk(s, cs[..n]);
      ApplyOk(Run(s, cs[..n]), cs[n]);
    }
  }

  /** A handle in use is looked up to the entry that holds it, and to no other. */
  lemma HandleFindsItsEntry(a: Agent, i: nat)
    requires a.Valid() && HandlesDiffer(a) && i < a.dirEntries && a.dir[i].lockHandle != 0
    ensures FindLockHandle(a, a.dir[i].lockHandle, 0) == Some(i)
  {
  }

  /**
    One command and one entry: Init is never re-entered, Updating is left only
    to Updated with the entry unlocked and its handle gone, and nothing touches
    the other agent.
   */
  lemma StageRules(s: seq<Agent>, c: Command, agent: nat, index: nat)
    requires ValidState(s) && InRange(c) && agent < AGENTS && index < MAX_DIR_ENTRIES
    ensures var e, t := s[agent].dir[index], Apply(s, c).0[agent].dir[index];
            && (t.stage == Init ==> e.stage == Init)
            && (e.stage == Updating && t.stage != Updating ==>
                  t == e.(stage := Updated, locked := false, lockHandle := 0)
                  && ((c.Release? && c.lockHandle == e.lockHandle) || (c.DataStart? && !c.areaMapped && !e.locked)))
            && (agent != c.agent ==> t == e)
            && t.storage == e.storage && t.xferSize == e.xferSize
  {
  }

  /** The entry grants an update of this length. */
  predicate Grants(e: Entry, length: nat) {
    length <= SMBIOS_TABLE_STORAGE_SIZE && (e.stage == Init || !e.locked)
  }

  /**
    An update starts exactly when the length is storable, the entry grants it,
    memory can be mapped and, for the agent that has a service, the service takes
    the new size. Where only the service refuses, the entry is updating all the
    same, under a handle that is not given out.
   */
  lemma StartExactly(s: seq<Agent>, agent: nat, index: nat, handle: nat, length: nat, areaMapped: bool, synced: bool)
    requires ValidState(s) && agent < AGENTS && index < MAX_DIR_ENTRIES
    ensures var e := s[agent].dir[index];
            var (t, ok) := Apply(s, DataStart(agent, index, handle, length, areaMapped, synced));
            && (ok <==> Grants(e, length) && areaMapped && (agent == ACPI || synced))
            && (Grants(e, length) && areaMapped ==>
                  t[agent].dir[index] == e.(stage := Updating, size := length, lockHandle := handle,
                                            locked := e.stage == Updating))
  {
  }

  /**
    A start that fails leaves the state as it was exactly where the entry does
    not grant it, or memory cannot be mapped and the entry is a free updated one
    already; in every other case the entry has moved on.
   */
  lemma FailedStartUnchangedExactly(s: seq<Agent>, agent: nat, index: nat, handle: nat, length: nat,
                                    areaMapped: bool, synced: bool)
    requires ValidState(s) && agent < AGENTS && index < MAX_DIR_ENTRIES
    requires !Apply(s, DataStart(agent, index, handle, length, areaMapped, synced)).1
    ensures var e := s[agent].dir[index];
            var t := Apply(s, DataStart(agent, index, handle, length, areaMapped, synced)).0;
            && (t == s <==> !Grants(e, length) || (!areaMapped && e.stage == Updated && e.lockHandle == 0))
            && (Grants(e, length) && !areaMapped ==>
                  t[agent].dir[index] == e.(stage := Updated, locked := false, lockHandle := 0))
  {
    var e := s[agent].dir[index];
    var t := Apply(s, DataStart(agent, index, handle, length, areaMapped, synced)).0;
    if t[agent].dir[index] == e {
      assert s[agent].dir[index := e] == s[agent].dir;
      assert s[agent := s[agent].(dir := s[agent].dir)] == s;
    }
  }

  lemma {:induction false} RunStays(s: seq<Agent>, cs: seq<Command>, agent: nat, index: nat)
    requires ValidState(s) && (forall c | c in cs :: InRange(c)) && agent < AGENTS && index < MAX_DIR_ENTRIES
    requires s[agent].dir[index].locked && s[agent].dir[index].stage != Init
    requires forall c | c in cs && c.Release? && c.agent == agent :: c.lockHandle != s[agent].dir[index].lockHandle
    ensures Run(s, cs)[agent].dir[index] == s[agent].dir[index]
  {
    if cs != [] {
      var n := |cs| - 1;
      RunStays(s, cs[..n], agent, index);
      var t, c := Run(s, cs[..n]), cs[n];
      assert c in cs;
      LockedStays(t, c, agent, index);
    }
  }

  lemma LockedStays(s: seq<Agent>, c: Command, agent: nat, index: nat)
    requires ValidState(s) && InRange(c) && agent < AGENTS && index < MAX_DIR_ENTRIES
    requires s[agent].dir[index].locked && s[agent].dir[index].stage != Init
    requires c.Release? && c.agent == agent ==> c.lockHandle != s[agent].dir[index].lockHandle
    ensures Apply(s, c).0[agent].dir[index] == s[agent].dir[index]
  {
  }

  /**
    Exclusion: once a lock for reading is granted, the entry does not change in
    any way, whatever either agent does, until its own handle is released.
   */
  lemma ReadLockHolds(s: seq<Agent>, agent: nat, index: nat, handle: nat, cs: seq<Command>)
    requires ValidState(s) && agent < AGENTS && index < MAX_DIR_ENTRIES
    requires Apply(s, LockData(agent, index, handle)).1
    requires forall c | c in cs :: InRange(c)
    requires Release(agent, handle) !in cs
    ensures var held := Apply(s, LockData(agent, index, handle)).0;
            && held[agent].dir[index] == s[agent].dir[index].(locked := true, lockHandle := handle)
            && Run(held, cs)[agent].dir[index] == held[agent].dir[index]
  {
    var held := Apply(s, LockData(agent, index, handle)).0;
    RunStays(held, cs, agent, index);
  }

  /** An update session is not exclusive: the next request takes the entry over, and the first handle is gone. */
  lemma UpdateSessionIsTakenOver(s: seq<Agent>, agent: nat, index: nat, h1: nat, h2: nat, length: nat, synced: bool)
    requires StateOk(s) && agent < AGENTS && index < MAX_DIR_ENTRIES && length <= SMBIOS_TABLE_STORAGE_SIZE
    requires Fresh(s, DataStart(agent, index, h1, length, true, synced)) && h1 != h2
    requires s[agent].dir[index].stage != Updating && Apply(s, DataStart(agent, index, h1, length, true, synced)).1
    ensures var s1 := Apply(s, DataStart(agent, index, h1, length, true, synced)).0;
            var (s2, granted) := Apply(s1, LockData(agent, index, h2));
            && granted && s2[agent].dir[index].lockHandle == h2
            && !Apply(s2, Release(agent, h1)).1
  {
    var s1 := Apply(s, DataStart(agent, index, h1, length, true, synced)).0;
    var s2 := Apply(s1, LockData(agent, index, h2)).0;
    assert forall i | 0 <= i < MAX_DIR_ENTRIES :: s2[agent].dir[i].lockHandle != h1;
  }

  // ------------------------------------------------------------------ reading the table

  datatype ReadError = OffsetOutOfRange | LengthOutOfRange | AddressOutOfRange | BadChecksum

  function Min(a: nat, b: nat): nat { if a < b then a else b }

  /**
    A block is read from the entry the handle is looked up to. Unless the handle
    is zero it is the handle of a session on that entry; zero, which is never
    handed out, is looked up to an idle entry whenever there is one.
   */
  lemma BlockNeedsSessionExactly(s: seq<Agent>, agent: nat, lockHandle: nat)
    requires StateOk(s) && agent < AGENTS
    ensures var found := FindLockHandle(s[agent], lockHandle, 0);
            && (found.Some? ==> (InSession(s[agent].dir[found.value]) <==> lockHandle != 0))
            && (lockHandle == 0 ==>
                  (found.Some? <==> exists i | 0 <= i < s[agent].dirEntries :: !InSession(s[agent].dir[i])))
  {
    var found := FindLockHandle(s[agent], lockHandle, 0);
    if found.Some? {
      EntryIsOk(s, agent, found.value);
    } else if lockHandle == 0 {
      forall i | 0 <= i < s[agent].dirEntries ensures InSession(s[agent].dir[i]) {
        EntryIsOk(s, agent, i);
      }
    }
  }

  /** From the initial directory: a table that has been written and released is served under handle zero. */
  lemma ReleasedTableIsServed(acpi: seq<byte>, smbios: seq<byte>, agent: nat, handle: nat, length: nat)
    requires agent < AGENTS && handle != 0 && length <= SMBIOS_TABLE_STORAGE_SIZE
    ensures var t := Run([InitialAgent(acpi), InitialAgent(smbios)],
                         [DataStart(agent, 0, handle, length, true, true), Release(agent, handle)]);
            && FindLockHandle(t[agent], 0, 0) == Some(0)
            && !InSession(t[agent].dir[0]) && t[agent].dir[0].size == length
  {
    var s := [InitialAgent(acpi), InitialAgent(smbios)];
    var start, release := DataStart(agent, 0, handle, length, true, true), Release(agent, handle);
    assert [start, release][..1] == [start] && [start][..0] == [];
    var s1 := Apply(s, start).0;
    assert s1[agent].dir[0].lockHandle == handle;
    assert Run(s, [start]) == s1;
  }

  lemma BlocksJoin(storage: seq<byte>, i: nat, j: nat)
    requires i <= j <= |storage|
    ensures storage[..i] + storage[i..j] == storage[..j]
  {
  }

  /** The number of bytes a block request gets: as many as all three limits allow. */
  function BlockSize(e: Entry, offset: nat, length: nat): (n: nat)
    requires offset <= e.size
    ensures n <= length && n <= e.xferSize && offset + n <= e.size
    ensures n == length || n == e.xferSize || offset + n == e.size
  {
    Min(Min(length, e.xferSize), e.size - offset)
  }
}
