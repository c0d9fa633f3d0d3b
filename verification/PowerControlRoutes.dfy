/**
  The routes that go by the PowerControl lookup list: GET of one member by its
  name, and PATCH of the array.
 */
module PowerControlRoutes {
  import opened Options
  import opened DecimalNames
  import opened PowerControl

  // ------------------------------------------------------------------ member ids

  /** What every element of the lookup list looks like. */
  predicate Known(e: Entry) {
    || e == ROOT_ENTRY
    || e == GroupEntry(PCIE_DOMAIN_ID, "Accelerators") || e == DeviceEntry(PCIE_DOMAIN_ID, "Accelerator", e.device)
    || e == GroupEntry(CPU_DOMAIN_ID, "Processors") || e == DeviceEntry(CPU_DOMAIN_ID, "Processor", e.device)
    || e == GroupEntry(MEMORY_DOMAIN_ID, "Memories") || e == DeviceEntry(MEMORY_DOMAIN_ID, "Memory", e.device)
  }

  lemma GroupMembers(domain: string, name: string, plural: string, devices: seq<DeviceIndex>, e: Entry)
    requires e in Group(domain, name, plural, devices)
    ensures e == GroupEntry(domain, plural) || e == DeviceEntry(domain, name, e.device)
  {
    hide ToString;
    var group := Group(domain, name, plural, devices);
    var i :| 0 <= i < |group| && group[i] == e;
    if i < |devices| {
      assert e == DeviceEntry(domain, name, devices[i]);
    }
  }

  lemma AllKnown(processors: seq<DeviceIndex>, memories: seq<DeviceIndex>, accelerators: seq<DeviceIndex>)
    ensures forall e | e in DomainPolicyMap(processors, memories, accelerators) :: Known(e)
  {
    hide DeviceEntry, GroupEntry, Group;
    forall e | e in DomainPolicyMap(processors, memories, accelerators) ensures Known(e) {
      if e in Group(PCIE_DOMAIN_ID, "Accelerator", "Accelerators", accelerators) {
        GroupMembers(PCIE_DOMAIN_ID, "Accelerator", "Accelerators", accelerators, e);
      } else if e in Group(CPU_DOMAIN_ID, "Processor", "Processors", processors) {
        GroupMembers(CPU_DOMAIN_ID, "Processor", "Processors", processors, e);
      } else if e in Group(MEMORY_DOMAIN_ID, "Memory", "Memories", memories) {
        GroupMembers(MEMORY_DOMAIN_ID, "Memory", "Memories", memories, e);
      }
    }
  }

  predicate IsFixed(e: Entry) {
    e == ROOT_ENTRY || e == GroupEntry(PCIE_DOMAIN_ID, "Accelerators")
    || e == GroupEntry(CPU_DOMAIN_ID, "Processors") || e == GroupEntry(MEMORY_DOMAIN_ID, "Memories")
  }

  lemma DeviceIsNotFixed(domain: string, name: string, d: DeviceIndex, e: Entry)
    requires Alphabetic(name) && name != "" && IsFixed(e)
    ensures DeviceEntry(domain, name, d).memberId != e.memberId
  {
    if e == ROOT_ENTRY {
      assert DeviceEntry(domain, name, d).memberId[0] == name[0];
    } else {
      NumberedIsNotAlphabetic(name, d, e.memberId);
    }
  }

  lemma FixedDetermined(a: Entry, b: Entry)
    requires IsFixed(a) && IsFixed(b) && a.memberId == b.memberId
    ensures a == b
  {
    assert a.memberId[0] == b.memberId[0];
  }

  /** The name in front of a device's number, by domain. */
  predicate DeviceKind(domain: string, name: string) {
    || (domain == PCIE_DOMAIN_ID && name == "Accelerator")
    || (domain == CPU_DOMAIN_ID && name == "Processor")
    || (domain == MEMORY_DOMAIN_ID && name == "Memory")
  }

  lemma DevicesDetermined(da: string, na: string, a: DeviceIndex, db: string, nb: string, b: DeviceIndex)
    requires DeviceKind(da, na) && DeviceKind(db, nb)
    requires DeviceEntry(da, na, a).memberId == DeviceEntry(db, nb, b).memberId
    ensures DeviceEntry(da, na, a) == DeviceEntry(db, nb, b)
  {
    NumberedInjective(na, a, nb, b);
  }

  lemma KnownIsDeviceOrFixed(e: Entry) returns (domain: string, name: string)
    requires Known(e)
    ensures IsFixed(e) || (DeviceKind(domain, name) && e == DeviceEntry(domain, name, e.device))
  {
    hide DeviceEntry, GroupEntry;
    domain, name := "", "";
    if e == DeviceEntry(PCIE_DOMAIN_ID, "Accelerator", e.device) {
      domain, name := PCIE_DOMAIN_ID, "Accelerator";
    } else if e == DeviceEntry(CPU_DOMAIN_ID, "Processor", e.device) {
      domain, name := CPU_DOMAIN_ID, "Processor";
    } else if e == DeviceEntry(MEMORY_DOMAIN_ID, "Memory", e.device) {
      domain, name := MEMORY_DOMAIN_ID, "Memory";
    }
  }

  /** A member id determines the whole element: domain, policy and device. */
  lemma MemberIdDetermines(a: Entry, b: Entry)
    requires Known(a) && Known(b) && a.memberId == b.memberId
    ensures a == b
  {
    hide DeviceEntry, IsFixed, Known;
    var da, na := KnownIsDeviceOrFixed(a);
    var db, nb := KnownIsDeviceOrFixed(b);
    if IsFixed(a) && IsFixed(b) {
      FixedDetermined(a, b);
    } else if IsFixed(a) {
      KindIsName(db, nb);
      DeviceIsNotFixed(db, nb, b.device, a);
    } else if IsFixed(b) {
      KindIsName(da, na);
      DeviceIsNotFixed(da, na, a.device, b);
    } else {
      DevicesDetermined(da, na, a.device, db, nb, b.device);
    }
  }

  lemma KindIsName(domain: string, name: string)
    requires DeviceKind(domain, name)
    ensures Alphabetic(name) && name != ""
  {
  }

  lemma GroupDistinct(domain: string, name: string, plural: string, devices: seq<DeviceIndex>)
    requires Alphabetic(name) && Alphabetic(plural) && Distinct(devices)
    ensures Distinct(Group(domain, name, plural, devices))
    ensures forall e | e in Group(domain, name, plural, devices) :: e.domain == domain
  {
    hide ToString;
    var group := Group(domain, name, plural, devices);
    forall i, j | 0 <= i < j < |group| ensures group[i] != group[j] {
      if j < |devices| {
        assert group[i].device == devices[i] && group[j].device == devices[j];
      } else {
        NumberedIsNotAlphabetic(name, devices[i], plural);
      }
    }
  }

  lemma ConcatDistinct<T>(a: seq<T>, b: seq<T>)
    requires Distinct(a) && Distinct(b) && forall x | x in a :: x !in b
    ensures Distinct(a + b)
  {
    forall i, j | 0 <= i < j < |a + b| ensures (a + b)[i] != (a + b)[j] {
      if i < |a| && j >= |a| {
        assert a[i] in a && b[j - |a|] in b;
      }
    }
  }

  /** With distinct device indices per domain, all member ids are distinct. */
  lemma MemberIdsDistinct(processors: seq<DeviceIndex>, memories: seq<DeviceIndex>, accelerators: seq<DeviceIndex>)
    requires Distinct(processors) && Distinct(memories) && Distinct(accelerators)
    ensures var list := DomainPolicyMap(processors, memories, accelerators);
            forall i, j | 0 <= i < j < |list| :: list[i].memberId != list[j].memberId
  {
    hide Group, Known;
    var ga := Group(PCIE_DOMAIN_ID, "Accelerator", "Accelerators", accelerators);
    var gp := Group(CPU_DOMAIN_ID, "Processor", "Processors", processors);
    var gm := Group(MEMORY_DOMAIN_ID, "Memory", "Memories", memories);
    GroupDistinct(PCIE_DOMAIN_ID, "Accelerator", "Accelerators", accelerators);
    GroupDistinct(CPU_DOMAIN_ID, "Processor", "Processors", processors);
    GroupDistinct(MEMORY_DOMAIN_ID, "Memory", "Memories", memories);
    DomainsDiffer();
    ConcatDistinct([ROOT_ENTRY], ga);
    ConcatDistinct([ROOT_ENTRY] + ga, gp);
    ConcatDistinct([ROOT_ENTRY] + ga + gp, gm);
    AllKnown(processors, memories, accelerators);
    var list := DomainPolicyMap(processors, memories, accelerators);
    forall i, j | 0 <= i < j < |list| ensures list[i].memberId != list[j].memberId {
      if list[i].memberId == list[j].memberId {
        assert list[i] in list && list[j] in list;
        MemberIdDetermines(list[i], list[j]);
      }
    }
  }

  lemma DomainsDiffer()
    ensures DC_TOTAL_POWER_DOMAIN_ID != PCIE_DOMAIN_ID && DC_TOTAL_POWER_DOMAIN_ID != CPU_DOMAIN_ID
    ensures DC_TOTAL_POWER_DOMAIN_ID != MEMORY_DOMAIN_ID && PCIE_DOMAIN_ID != CPU_DOMAIN_ID
    ensures PCIE_DOMAIN_ID != MEMORY_DOMAIN_ID && CPU_DOMAIN_ID != MEMORY_DOMAIN_ID
  {
    assert |DC_TOTAL_POWER_DOMAIN_ID| == 20 && |PCIE_DOMAIN_ID| == 4;
    assert |CPU_DOMAIN_ID| == 12 && |MEMORY_DOMAIN_ID| == 15;
  }

  // ------------------------------------------------------------------ GET by name

  /** find_if over the list by member id; `|list|` stands for end(). */
  method FindMember(list: seq<Entry>, name: string) returns (i: nat)
    ensures i <= |list|
    ensures i < |list| ==> list[i].memberId == name
    ensures forall j | 0 <= j < i :: list[j].memberId != name
  {
    i := 0;
    while i < |list| && list[i].memberId != name
      invariant i <= |list|
      invariant forall j | 0 <= j < i :: list[j].memberId != name
    {
      i := i + 1;
    }
  }

  lemma RebuiltNumbered(domain: string, name: string, d: DeviceIndex)
    requires name != "" && name[0] != '0'
    ensures PolicyNameOf(DeviceEntry(domain, name, d).memberId) == DeviceEntry(domain, name, d).policy
  {
    hide ToString;
    assert (name + ToString(d))[0] != "0"[0];
    assert DMTF_POWER_POLICY_ID + "_" + (name + ToString(d)) == DMTF_POWER_POLICY_ID + ("_" + name) + ToString(d);
  }

  /** Both ways of rebuilding a node from its name give the element's policy. */
  lemma RebuiltAggregate(e: Entry)
    requires Known(e) && e.device == ALL_DEVICES
    ensures PolicyNameOf(e.memberId) == e.policy
  {
    hide DeviceEntry, Known, IsFixed, PolicyNameOf;
    var domain, name := KnownIsDeviceOrFixed(e);
    if IsFixed(e) {
      RebuiltFixed(e);
    } else {
      assert name[0] in {'A', 'P', 'M'};
      RebuiltNumbered(domain, name, e.device);
    }
  }

  lemma RebuiltFixed(e: Entry)
    requires IsFixed(e)
    ensures PolicyNameOf(e.memberId) == e.policy
  {
  }

  lemma RebuiltComponent(e: Entry)
    requires Known(e) && e.device != ALL_DEVICES
    ensures var name := AlphaOnly(e.memberId);
            e == Entry(e.domain, PolicyNameOfDevice(name, e.device), e.device, name + ToString(e.device))
  {
    hide DeviceEntry, Known;
    var domain, name := KnownIsDeviceOrFixed(e);
    KindIsName(domain, name);
    DeviceEntryIs(domain, name, e.device);
    AlphaOnlyStrips(name, e.device);
  }

  /** What the by-name GET promises of its answer. */
  predicate AnswersFor(found: Option<Node>, list: seq<Entry>, name: string, chassis: string) {
    && (found.None? <==> forall e | e in list :: e.memberId != name)
    && (found.Some? ==> forall e | e in list && e.memberId == name :: Shows(found.value, e, chassis))
  }

  /**
    `getNmDmtfComponentByMemberId` on an empty response: the node of the member
    called `name`, rebuilt in the temporary slot; `None` where the source
    answers "not found".
   */
  method GetByMemberId(doc: Document, processors: seq<DeviceIndex>, memories: seq<DeviceIndex>,
                       accelerators: seq<DeviceIndex>, name: string) returns (found: Option<Node>)
    requires doc.nodes == []
    modifies doc
    ensures AnswersFor(found, DomainPolicyMap(processors, memories, accelerators), name, doc.chassis)
  {
    hide Shows, ToString, AlphaOnly, DomainPolicyMap, Known, OdataId, PolicyNameOf, PolicyNameOfDevice;
    var list := BuildDomainPolicyMap(processors, memories, accelerators);
    AllKnown(processors, memories, accelerators);
    var i := FindMember(list, name);
    if i == |list| {
      return None;
    }
    var e := list[i];
    assert Known(e);
    forall x | x in list && x.memberId == name ensures x == e {
      MemberIdDetermines(x, e);
    }
    doc.Touch(TEMP_NODE);
    if e.device == ALL_DEVICES {
      RebuiltAggregate(e);
      doc.AggregateNode(name, TEMP_NODE, e.domain);
      AggregateSlotShows(doc.nodes[TEMP_NODE], e, doc.chassis);
    } else {
      RebuiltComponent(e);
      doc.ComponentNode(e.domain, e.device, TEMP_NODE, AlphaOnly(name), POWER_ROOT_NODE);
    }
    return Some(doc.nodes[TEMP_NODE]);
  }

  lemma AggregateSlotShows(node: Node, e: Entry, chassis: string)
    requires node.memberId == Some(e.memberId) && node.odataId == Some(OdataId(chassis, e.memberId))
    requires node.source == Some((e.domain, e.policy))
    ensures Shows(node, e, chassis)
  {
  }

  // ------------------------------------------------------------------ following a link

  /** The text behind the last slash. */
  function LastSegment(s: string): string {
    if s == "" || s[|s| - 1] == '/' then "" else LastSegment(s[..|s| - 1]) + [s[|s| - 1]]
  }

  lemma {:induction false} LastSegmentIs(path: string, name: string)
    requires path != "" && path[|path| - 1] == '/' && '/' !in name
    ensures LastSegment(path + name) == name
  {
    if name == "" {
      assert path + name == path;
    } else {
      var n := |name| - 1;
      assert (path + name)[..|path| + n] == path + name[..n];
      assert name == name[..n] + [name[n]] && name[n] in name;
      LastSegmentIs(path, name[..n]);
    }
  }

  lemma NoSlash(e: Entry)
    requires Known(e)
    ensures '/' !in e.memberId
  {
    hide DeviceEntry, Known, IsFixed;
    var domain, name := KnownIsDeviceOrFixed(e);
    if IsFixed(e) {
      NoSlashFixed(e);
    } else {
      NoSlashNumbered(domain, name, e.device);
    }
  }

  lemma NoSlashFixed(e: Entry)
    requires IsFixed(e)
    ensures '/' !in e.memberId
  {
  }

  lemma NoSlashNumbered(domain: string, name: string, d: DeviceIndex)
    requires DeviceKind(domain, name)
    ensures '/' !in DeviceEntry(domain, name, d).memberId
  {
    hide ToString;
  }

  /** Links of one chassis are equal exactly when the member ids are; a link ends in the member id. */
  lemma LinkNamesMember(chassis: string, a: string, b: string)
    ensures OdataId(chassis, a) == OdataId(chassis, b) <==> a == b
    ensures '/' !in a ==> LastSegment(OdataId(chassis, a)) == a
  {
    var path := "/redfish/v1/Chassis/" + chassis + "/Power/PowerControl/";
    assert OdataId(chassis, a) == path + a && OdataId(chassis, b) == path + b;
    assert a == (path + a)[|path|..] && b == (path + b)[|path|..];
    assert path[|path| - 1] == '/';
    if '/' !in a {
      LastSegmentIs(path, a);
    }
  }

  lemma SlotAnswers(nodes: seq<Node>, list: seq<Entry>, chassis: string, j: nat, found: Option<Node>)
    requires ShowsAll(nodes, list, chassis) && j < |nodes| && Known(list[j])
    requires AnswersFor(found, list, LastSegment(Id(nodes[j])), chassis)
    ensures found.Some? && found.value.memberId == nodes[j].memberId
    ensures found.value.odataId == Some(Id(nodes[j])) && found.value.source == nodes[j].source
  {
    hide Known, LastSegment;
    assert Shows(nodes[j], list[j], chassis) && list[j] in list;
    NoSlash(list[j]);
    LinkNamesMember(chassis, list[j].memberId, list[j].memberId);
    assert Id(nodes[j]) == OdataId(chassis, list[j].memberId);
    assert Shows(found.value, list[j], chassis);
  }

  /**
    Following any link of a collected array, or a slot's own, by the by-name GET
    with the text behind its last slash gives the node that the slot with that
    link shows.
   */
  lemma LinkLeadsToSlot(nodes: seq<Node>, processors: seq<DeviceIndex>, memories: seq<DeviceIndex>,
                        accelerators: seq<DeviceIndex>, chassis: string, i: nat, link: string, found: Option<Node>)
    requires var list := DomainPolicyMap(processors, memories, accelerators);
             && ShowsAll(nodes, list, chassis) && Linked(nodes, |accelerators|, |processors|, |memories|)
             && AnswersFor(found, list, LastSegment(link), chassis)
    requires i < |nodes| && (link in nodes[i].related || nodes[i].odataId == Some(link))
    ensures found.Some? && exists j | 0 <= j < |nodes| ::
              && nodes[j].odataId == Some(link) == found.value.odataId
              && nodes[j].memberId == found.value.memberId && nodes[j].source == found.value.source
  {
    hide Linked, DomainPolicyMap, Known, LastSegment, AnswersFor;
    var list := DomainPolicyMap(processors, memories, accelerators);
    AllKnown(processors, memories, accelerators);
    if link in nodes[i].related {
      LinkLands(nodes, |accelerators|, |processors|, |memories|, i, link);
    } else {
      assert Id(nodes[i]) == link;
    }
    var j :| 0 <= j < |nodes| && Id(nodes[j]) == link;
    assert Shows(nodes[j], list[j], chassis) && list[j] in list;
    SlotAnswers(nodes, list, chassis, j, found);
  }

  // ------------------------------------------------------------------ PATCH of the array

  /** A policy update as it goes out to the Node Manager; a power limit also names the device. */
  datatype Update =
    | Oem(domain: string, policy: string, body: string)
    | PowerLimit(domain: string, policy: string, device: DeviceIndex, body: string)

  /** An element of the request's PowerControl array; `None` when it does not parse. */
  type Patch = Option<(Option<string>, Option<string>)>

  datatype PatchResult = Done | ParseError | OutOfRange

  /** The updates for one element: the OEM part goes out before and after the limit. */
  function UpdatesFor(e: Entry, patch: (Option<string>, Option<string>)): seq<Update> {
    var oem := if patch.0.Some? then [Oem(e.domain, e.policy, patch.0.value)] else [];
    var limit := if patch.1.Some? then [PowerLimit(e.domain, e.policy, e.device, patch.1.value)] else [];
    oem + limit + oem
  }

  /** The limit goes out between two copies of the OEM part, which may depend on it. */
  lemma UpdatesForIs(e: Entry, oem: string, limit: string)
    ensures UpdatesFor(e, (Some(oem), Some(limit))) ==
            [Oem(e.domain, e.policy, oem), PowerLimit(e.domain, e.policy, e.device, limit), Oem(e.domain, e.policy, oem)]
    ensures UpdatesFor(e, (Some(oem), None)) == [Oem(e.domain, e.policy, oem), Oem(e.domain, e.policy, oem)]
    ensures UpdatesFor(e, (None, Some(limit))) == [PowerLimit(e.domain, e.policy, e.device, limit)]
    ensures UpdatesFor(e, (None, None)) == []
  {
  }

  function UpdatesUpTo(list: seq<Entry>, patches: seq<Patch>, n: nat): seq<Update>
    requires n <= |list| && n <= |patches| && forall i | 0 <= i < n :: patches[i].Some?
  {
    if n == 0 then [] else UpdatesUpTo(list, patches, n - 1) + UpdatesFor(list[n - 1], patches[n - 1].value)
  }

  /**
    `setPowerCapOverride`: element `i` of the request updates the policy of list
    element `i`, in order, until an element does not parse or the list is over.
   */
  method SetPowerCapOverride(processors: seq<DeviceIndex>, memories: seq<DeviceIndex>, accelerators: seq<DeviceIndex>,
                             patches: seq<Patch>) returns (res: PatchResult, log: seq<Update>, n: nat)
    ensures var list := DomainPolicyMap(processors, memories, accelerators);
            && n <= |patches| && n <= |list| && (forall i | 0 <= i < n :: patches[i].Some?)
            && log == UpdatesUpTo(list, patches, n)
            && match res
               case Done => n == |patches|
               case ParseError => n < |patches| && n < |list| && patches[n].None?
               case OutOfRange => n < |patches| && n == |list|
  {
    hide DomainPolicyMap;
    log, n := [], 0;
    var list := BuildDomainPolicyMap(processors, memories, accelerators);
    while n < |patches|
      invariant n <= |patches| && n <= |list| && forall i | 0 <= i < n :: patches[i].Some?
      invariant log == UpdatesUpTo(list, patches, n)
    {
      if n >= |list| {
        return OutOfRange, log, n;
      }
      var e := list[n];
      if patches[n].None? {
        return ParseError, log, n;
      }
      var (oem, powerLimit) := patches[n].value;
      var before := log;
      if oem.Some? {
        log := log + [Oem(e.domain, e.policy, oem.value)];
      }
      if powerLimit.Some? {
        log := log + [PowerLimit(e.domain, e.policy, e.device, powerLimit.value)];
      }
      if oem.Some? {
        log := log + [Oem(e.domain, e.policy, oem.value)];
      }
      assert log == before + UpdatesFor(e, patches[n].value);
      n := n + 1;
    }
    return Done, log, n;
  }

  /**
    Every update a PATCH sends addresses the policy that GET showed in the slot
    of the same index, and a power limit the device of the list element there.
   */
  lemma {:induction false} PatchAddressesWhatGetShowed(nodes: seq<Node>, list: seq<Entry>, chassis: string,
                                                       patches: seq<Patch>, n: nat, u: Update)
    requires ShowsAll(nodes, list, chassis)
    requires n <= |list| && n <= |patches| && forall i | 0 <= i < n :: patches[i].Some?
    ensures u in UpdatesUpTo(list, patches, n) <==>
            exists i | 0 <= i < n :: nodes[i].source == Some((u.domain, u.policy)) && Carries(patches[i].value, list[i].device, u)
  {
    hide Shows;
    if n > 0 {
      PatchAddressesWhatGetShowed(nodes, list, chassis, patches, n - 1, u);
      var here := UpdatesFor(list[n - 1], patches[n - 1].value);
      assert u in UpdatesUpTo(list, patches, n) <==> u in UpdatesUpTo(list, patches, n - 1) || u in here;
      OneSlot(nodes[n - 1], list[n - 1], chassis, patches[n - 1].value, u);
    }
  }

  /** The request element carries the body of the update, which names `device` if any. */
  predicate Carries(patch: (Option<string>, Option<string>), device: DeviceIndex, u: Update) {
    match u
    case Oem(_, _, body) => patch.0 == Some(body)
    case PowerLimit(_, _, d, body) => patch.1 == Some(body) && d == device
  }

  lemma OneSlot(node: Node, e: Entry, chassis: string, patch: (Option<string>, Option<string>), u: Update)
    requires Shows(node, e, chassis)
    ensures u in UpdatesFor(e, patch) <==> node.source == Some((u.domain, u.policy)) && Carries(patch, e.device, u)
  {
    hide OdataId;
  }
}
