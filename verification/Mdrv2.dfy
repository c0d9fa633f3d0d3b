/** The MDRv2 directory of both agents, updated in place by the commands of Mdrv2Model.dfy. */
module Mdrv2 {
  import opened Options
  import opened Mdrv2Model

  class Directory {
    const acpi: array<Entry>
    const smbios: array<Entry>
    var acpiEntries: nat
    var smbiosEntries: nat
    /** Handles are handed out by a function that is not part of this model. */
    const nextHandle: nat -> nat
    var handles: nat

    /** Entry `i` is the first in use with the handle and not untouched; `now` is that entry free, an update on it over. */
    static predicate Frees(now: Entry, was: seq<Entry>, entries: nat, i: nat, lockHandle: nat)
      requires i < entries <= |was|
    {
      && was[i].lockHandle == lockHandle && (forall j | 0 <= j < i :: was[j].lockHandle != lockHandle)
      && was[i].stage != Init
      && now == was[i].(locked := false, lockHandle := 0, stage := if was[i].stage == Updating then Updated else was[i].stage)
    }

    ghost predicate Valid()
      reads this
    {
      && acpi.Length == smbios.Length == MAX_DIR_ENTRIES && acpi != smbios
      && acpiEntries <= MAX_DIR_ENTRIES && smbiosEntries <= MAX_DIR_ENTRIES
    }

    ghost function View(): (s: seq<Agent>)
      requires Valid()
      reads this, acpi, smbios
      ensures ValidState(s)
    {
      [Agent(acpiEntries, acpi[..]), Agent(smbiosEntries, smbios[..])]
    }

    /** The directory as the program initialises it: of each agent only the first entry is filled in, and in use. */
    constructor (acpiStorage: seq<byte>, smbiosStorage: seq<byte>, nextHandle: nat -> nat)
      requires |acpiStorage| == 737 * 1024 && |smbiosStorage| == 64 * 1024
      ensures Valid() && fresh(acpi) && fresh(smbios)
      ensures View() == [InitialAgent(acpiStorage), InitialAgent(smbiosStorage)] && StateOk(View())
      ensures acpiEntries == 1 && acpi[0] == Entry(Init, false, 0, 0, 0x10_0000, acpiStorage)
      ensures smbiosEntries == 1 && smbios[0] == Entry(Init, false, 0, 0, 0x10_0000, smbiosStorage)
      ensures forall i | 1 <= i < 4 :: acpi[i] == smbios[i] == Entry(Init, false, 0, 0, 0, [])
      ensures this.nextHandle == nextHandle && handles == 0
    {
      var unused := Entry(Init, false, 0, 0, 0, []);
      acpi := new Entry[MAX_DIR_ENTRIES](i => if i == 0 then Entry(Init, false, 0, 0, XFER_SIZE, acpiStorage) else unused);
      smbios := new Entry[MAX_DIR_ENTRIES](i => if i == 0 then Entry(Init, false, 0, 0, XFER_SIZE, smbiosStorage) else unused);
      acpiEntries, smbiosEntries := 1, 1;
      this.nextHandle, handles := nextHandle, 0;
      new;
      assert acpi[..] == InitialAgent(acpiStorage).dir && smbios[..] == InitialAgent(smbiosStorage).dir;
    }

    function Dir(agent: nat): (d: array<Entry>)
      requires agent < AGENTS
    {
      if agent == 0 then acpi else smbios
    }

    function DirEntries(agent: nat): nat
      requires agent < AGENTS
      reads this
    {
      if agent == 0 then acpiEntries else smbiosEntries
    }

    /** One entry of one agent has changed since `was`. */
    lemma ViewAfter(was: seq<Agent>, agent: nat, index: nat)
      requires Valid() && ValidState(was) && agent < AGENTS && index < MAX_DIR_ENTRIES
      requires was[0].dirEntries == acpiEntries && was[1].dirEntries == smbiosEntries
      requires Dir(agent)[..] == was[agent].dir[index := Dir(agent)[index]]
      requires Dir(1 - agent)[..] == was[1 - agent].dir
      ensures View() == Put(was, agent, index, Dir(agent)[index])
    {
    }

    lemma EntryOfView(agent: nat, index: nat)
      requires Valid() && agent < AGENTS && index < MAX_DIR_ENTRIES
      ensures Dir(agent)[..] == View()[agent].dir && Dir(agent)[index] == View()[agent].dir[index]
    {
    }

    method GetSessionHandle() returns (handle: nat)
      modifies this`handles
      ensures handle == nextHandle(old(handles)) && handles == old(handles) + 1
    {
      handle := nextHandle(handles);
      handles := handles + 1;
    }

    method FindLockHandle(agent: nat, lockHandle: nat) returns (index: Option<nat>)
      requires Valid() && agent < AGENTS
      ensures index == Mdrv2Model.FindLockHandle(View()[agent], lockHandle, 0)
    {
      var dir := Dir(agent);
      var i := 0;
      while i < DirEntries(agent)
        invariant i <= DirEntries(agent)
        invariant Mdrv2Model.FindLockHandle(View()[agent], lockHandle, 0)
               == Mdrv2Model.FindLockHandle(View()[agent], lockHandle, i)
      {
        if lockHandle == dir[i].lockHandle {
          return Some(i);
        }
        i := i + 1;
      }
      return None;
    }

    /** `smbiosUnlock` */
    method SmbiosUnlock(agent: nat, index: nat) returns (ok: bool)
      requires Valid() && agent < AGENTS && index < MAX_DIR_ENTRIES
      modifies Dir(agent)
      ensures Valid()
      ensures var r := Unlock(old(Dir(agent)[index]));
              ok == r.Some? && View() == if ok then Put(old(View()), agent, index, r.value) else old(View())
    {
      var dir := Dir(agent);
      ok := false;
      match dir[index].stage {
        case Updating =>
          dir[index] := dir[index].(stage := Updated);
          dir[index] := dir[index].(locked := false);
          dir[index] := dir[index].(lockHandle := 0);
          ok := true;
        case Updated =>
          dir[index] := dir[index].(locked := false);
          dir[index] := dir[index].(lockHandle := 0);
          ok := true;
        case Loaded =>
          dir[index] := dir[index].(locked := false);
          dir[index] := dir[index].(lockHandle := 0);
          ok := true;
        case Init =>
      }
      if ok {
        ViewAfter(old(View()), agent, index);
      }
    }

    /** `smbiosTryLock`; the session handle is drawn only where the attempt succeeds. */
    method SmbiosTryLock(agent: nat, flag: bool, index: nat) returns (ok: bool, session: nat)
      requires Valid() && agent < AGENTS && index < MAX_DIR_ENTRIES
      modifies this`handles, Dir(agent)
      ensures Valid()
      ensures var r := TryLock(old(Dir(agent)[index]), flag, nextHandle(old(handles)));
              && ok == r.Some?
              && View() == (if ok then Put(old(View()), agent, index, r.value) else old(View()))
              && (ok ==> session == nextHandle(old(handles)))
              && handles == old(handles) + if ok then 1 else 0
    {
      var dir := Dir(agent);
      ok, session := false, 0;
      match dir[index].stage {
        case Updating =>
          if !dir[index].locked {
            dir[index] := dir[index].(locked := true);
            session := GetSessionHandle();
            dir[index] := dir[index].(lockHandle := session);
            ok := true;
          }
        case Init =>
          if flag {
            dir[index] := dir[index].(stage := Updating);
            dir[index] := dir[index].(locked := false);
            session := GetSessionHandle();
            dir[index] := dir[index].(lockHandle := session);
            ok := true;
          }
        case _ =>
          if !dir[index].locked {
            if flag {
              dir[index] := dir[index].(stage := Updating);
              dir[index] := dir[index].(locked := false);
            } else {
              dir[index] := dir[index].(locked := true);
            }
            session := GetSessionHandle();
            dir[index] := dir[index].(lockHandle := session);
            ok := true;
          }
      }
      if ok {
        ViewAfter(old(View()), agent, index);
      }
    }

    /** mdr2LockData, once the entry is known. */
    method LockData(agent: nat, index: nat) returns (ok: bool, session: nat)
      requires Valid() && agent < AGENTS && index < MAX_DIR_ENTRIES
      modifies this`handles, Dir(agent)
      ensures Valid() && (View(), ok) == Apply(old(View()), Command.LockData(agent, index, nextHandle(old(handles))))
      ensures ok <==> old(Dir(agent)[index]).stage != Init && !old(Dir(agent)[index]).locked
      ensures ok ==> Dir(agent)[index] == old(Dir(agent)[index]).(locked := true, lockHandle := nextHandle(old(handles)))
      ensures ok ==> session == nextHandle(old(handles))
    {
      ok, session := SmbiosTryLock(agent, false, index);
      EntryOfView(agent, index);
    }

    /**
      Data start: `areaMapped` is false where the shared memory cannot be mapped,
      `synced` where the directory service refuses the new size.
     */
    method DataStart(agent: nat, index: nat, length: nat, areaMapped: bool, synced: bool) returns (ok: bool, session: nat)
      requires Valid() && agent < AGENTS && index < MAX_DIR_ENTRIES
      modifies this`handles, Dir(agent)
      ensures Valid()
      ensures (View(), ok) ==
              Apply(old(View()), Command.DataStart(agent, index, nextHandle(old(handles)), length, areaMapped, synced))
      ensures var e := old(Dir(agent)[index]);
              ok <==> length <= 0x1_0000 && (e.stage == Init || !e.locked) && areaMapped && (agent == 0 || synced)
      ensures ok ==> session == nextHandle(old(handles))
    {
      ok, session := false, 0;
      if length > SMBIOS_TABLE_STORAGE_SIZE {
        return;
      }
      var locked, handle := SmbiosTryLock(agent, true, index);
      EntryOfView(agent, index);
      EntryOfView(1 - agent, index);
      if locked {
        if !areaMapped {
          PutTwice(old(View()), agent, index, Dir(agent)[index], Unlock(Dir(agent)[index]).value);
          var _ := SmbiosUnlock(agent, index);
          return;
        }
        var dir := Dir(agent);
        PutTwice(old(View()), agent, index, dir[index], dir[index].(size := length));
        dir[index] := dir[index].(size := length);
        dir[index] := dir[index].(lockHandle := handle);
        ViewAfter(old(View()), agent, index);
        if HasService(agent) && !synced {
          return;
        }
        ok, session := true, handle;
      }
    }

    /** mdr2UnlockData, and the unlocking part of data done. */
    method Release(agent: nat, lockHandle: nat) returns (ok: bool)
      requires Valid() && agent < AGENTS
      modifies Dir(agent)
      ensures Valid() && (View(), ok) == Apply(old(View()), Command.Release(agent, lockHandle))
      ensures ok <==> exists i | 0 <= i < DirEntries(agent) ::
                        Frees(Dir(agent)[i], old(Dir(agent)[..]), DirEntries(agent), i, lockHandle)
      ensures Dir(agent)[..] == old(Dir(agent)[..]) || exists i | 0 <= i < DirEntries(agent) ::
                && Frees(Dir(agent)[i], old(Dir(agent)[..]), DirEntries(agent), i, lockHandle)
                && Dir(agent)[..] == old(Dir(agent)[..])[i := Dir(agent)[i]]
    {
      ghost var was := Dir(agent)[..];
      var index := FindLockHandle(agent, lockHandle);
      if index.None? {
        return false;
      }
      ok := SmbiosUnlock(agent, index.value);
      EntryOfView(agent, index.value);
      if ok {
        assert Frees(Dir(agent)[index.value], was, DirEntries(agent), index.value, lockHandle);
      }
    }

    /**
      mdr2GetDataBlock for the entry behind the handle. `address` is where the
      entry's storage lies; the checksum function is not part of this model.
     */
    method GetDataBlock(agent: nat, lockHandle: nat, offset: nat, length: nat, address: nat, checksum: seq<byte> -> nat)
      returns (res: Result<seq<byte>, Option<ReadError>>)
      requires Valid() && StateOk(View()) && agent < AGENTS
      ensures match Mdrv2Model.FindLockHandle(View()[agent], lockHandle, 0)
              case None => res == Failure(None)
              case Some(index) =>
                var e := Dir(agent)[index];
                if offset >= e.size then res == Failure(Some(OffsetOutOfRange))
                else if offset + length > 0xFFFF_FFFF && offset + e.xferSize > 0xFFFF_FFFF
                then res == Failure(Some(LengthOutOfRange))
                else
                  var n := BlockSize(e, offset, length);
                  var block := e.storage[offset..offset + n];
                  if offset + n + address > 0xFFFF_FFFF then res == Failure(Some(AddressOutOfRange))
                  else if checksum(block) == 0xFFFF_FFFF then res == Failure(Some(BadChecksum))
                  else res == Success(block)
    {
      var index := FindLockHandle(agent, lockHandle);
      if index.None? {
        return Failure(None);
      }
      var e := Dir(agent)[index.value];
      EntryIsOk(View(), agent, index.value);
      if offset >= e.size {
        return Failure(Some(OffsetOutOfRange));
      }
      var outSize := if length > e.xferSize then e.xferSize else length;
      if outSize > UINT_MAX - offset {
        return Failure(Some(LengthOutOfRange));
      }
      if offset + outSize > e.size {
        outSize := e.size - offset;
      }
      if offset + outSize > UINT_MAX - address {
        return Failure(Some(AddressOutOfRange));
      }
      if checksum(e.storage[offset..offset + outSize]) == INVALID_CHECKSUM {
        return Failure(Some(BadChecksum));
      }
      var data: seq<byte> := [];
      var i := 0;
      while i < outSize
        invariant i <= outSize && data == e.storage[offset..offset + i]
      {
        data := data + [e.storage[offset + i]];
        i := i + 1;
      }
      return Success(data);
    }

    /** A reader that asks for `ask(offset)` bytes at each offset until it has the whole table. */
    method ReadTable(agent: nat, lockHandle: nat, ask: nat -> nat, address: nat, checksum: seq<byte> -> nat)
      returns (res: Result<seq<byte>, Option<ReadError>>)
      requires Valid() && StateOk(View()) && agent < AGENTS
      requires forall k :: ask(k) >= 1
      requires forall i | 0 <= i < DirEntries(agent) :: Dir(agent)[i].xferSize >= 1
      ensures match Mdrv2Model.FindLockHandle(View()[agent], lockHandle, 0)
              case None => res == Failure(None)
              case Some(index) =>
                var e := Dir(agent)[index];
                && (res.Success? ==> res.value == e.storage[..e.size])
                && (e.xferSize <= UINT_MAX - e.size && e.size <= UINT_MAX - address && (forall b :: checksum(b) != INVALID_CHECKSUM)
                    ==> res.Success?)
    {
      var index := FindLockHandle(agent, lockHandle);
      if index.None? {
        return Failure(None);
      }
      var e := Dir(agent)[index.value];
      EntryIsOk(View(), agent, index.value);
      var data: seq<byte> := [];
      while |data| < e.size
        invariant |data| <= e.size && data == e.storage[..|data|]
        decreases e.size - |data|
      {
        var block := GetDataBlock(agent, lockHandle, |data|, ask(|data|), address, checksum);
        if block.Failure? {
          return block;
        }
        var next := |data| + |block.value|;
        assert next <= e.size && block.value == e.storage[|data|..next];
        BlocksJoin(e.storage, |data|, next);
        data := data + block.value;
      }
      return Success(data);
    }
  }
}
