/**
  The PowerControl array of the Node Manager: one function lays it out for GET,
  another builds the lookup list that PATCH and the by-name routes go by.
 */
module PowerControl {
  import opened Options
  import opened DecimalNames

  type DeviceIndex = n: nat | n < 256

  const ALL_DEVICES: DeviceIndex := 255
  const DMTF_POWER_POLICY_ID := "DmtfPower"
  const CPU_DOMAIN_ID := "CPUSubsystem"
  const MEMORY_DOMAIN_ID := "MemorySubsystem"
  const PCIE_DOMAIN_ID := "PCIe"
  const DC_TOTAL_POWER_DOMAIN_ID := "DCTotalPlatformPower"
  const POWER_ROOT_NODE := 0
  const TEMP_NODE := 1

  /** An element of the lookup list. */
  datatype Entry = Entry(domain: string, policy: string, device: DeviceIndex, memberId: string)

  /**
    A slot of the JSON array, as far as identity, links and the policy its values
    are read from go; `NULL_NODE` is a slot that has only come into being.
   */
  datatype Node = Node(
    memberId: Option<string>, odataId: Option<string>,
    relatedCount: Option<nat>, related: seq<string>,
    source: Option<(string, string)>)

  const NULL_NODE := Node(None, None, None, [], None)

  function PolicyNameOfDevice(name: string, device: DeviceIndex): string {
    DMTF_POWER_POLICY_ID + "_" + name + ToString(device)
  }

  function PolicyNameOf(name: string): string {
    if name != "0" then DMTF_POWER_POLICY_ID + "_" + name else DMTF_POWER_POLICY_ID
  }

  function OdataId(chassis: string, memberId: string): string {
    "/redfish/v1/Chassis/" + chassis + "/Power/PowerControl/" + memberId
  }

  // ------------------------------------------------------------------ the lookup list

  const ROOT_ENTRY := Entry(DC_TOTAL_POWER_DOMAIN_ID, DMTF_POWER_POLICY_ID, ALL_DEVICES, "0")

  function DeviceEntry(domain: string, name: string, device: DeviceIndex): Entry {
    Entry(domain, DMTF_POWER_POLICY_ID + ("_" + name) + ToString(device), device, name + ToString(device))
  }

  function GroupEntry(domain: string, name: string): Entry {
    Entry(domain, DMTF_POWER_POLICY_ID + ("_" + name), ALL_DEVICES, name)
  }

  function DeviceEntries(domain: string, name: string, devices: seq<DeviceIndex>): seq<Entry> {
    seq(|devices|, i requires 0 <= i < |devices| => DeviceEntry(domain, name, devices[i]))
  }

  /** A group's devices followed by the group itself. */
  function Group(domain: string, name: string, plural: string, devices: seq<DeviceIndex>): seq<Entry> {
    DeviceEntries(domain, name, devices) + [GroupEntry(domain, plural)]
  }

  function DomainPolicyMap(processors: seq<DeviceIndex>, memories: seq<DeviceIndex>, accelerators: seq<DeviceIndex>): seq<Entry> {
    [ROOT_ENTRY]
    + Group(PCIE_DOMAIN_ID, "Accelerator", "Accelerators", accelerators)
    + Group(CPU_DOMAIN_ID, "Processor", "Processors", processors)
    + Group(MEMORY_DOMAIN_ID, "Memory", "Memories", memories)
  }

  /** The elements of one group, by position and in literal text. */
  predicate Listed(list: seq<Entry>, at: nat, domain: string, policy: string, name: string, devices: seq<DeviceIndex>)
    requires at + |devices| <= |list|
  {
    forall i | 0 <= i < |devices| ::
      list[at + i] == Entry(domain, policy + ToString(devices[i]), devices[i], name + ToString(devices[i]))
  }

  lemma GroupListed(domain: string, name: string, plural: string, devices: seq<DeviceIndex>, policy: string)
    requires policy == "DmtfPower" + ("_" + name)
    ensures var group := Group(domain, name, plural, devices);
            && |group| == |devices| + 1 && Listed(group, 0, domain, policy, name, devices)
            && group[|devices|] == Entry(domain, "DmtfPower" + ("_" + plural), 255, plural)
  {
    hide ToString;
  }

  /** The whole list by position, in literal text. */
  lemma ListIs(processors: seq<DeviceIndex>, memories: seq<DeviceIndex>, accelerators: seq<DeviceIndex>)
    ensures var list := DomainPolicyMap(processors, memories, accelerators);
            var (a, p, m) := (|accelerators|, |processors|, |memories|);
            && |list| == a + p + m + 4
            && list[0] == Entry("DCTotalPlatformPower", "DmtfPower", 255, "0")
            && Listed(list, 1, "PCIe", "DmtfPower_Accelerator", "Accelerator", accelerators)
            && list[1 + a] == Entry("PCIe", "DmtfPower_Accelerators", 255, "Accelerators")
            && Listed(list, 2 + a, "CPUSubsystem", "DmtfPower_Processor", "Processor", processors)
            && list[2 + a + p] == Entry("CPUSubsystem", "DmtfPower_Processors", 255, "Processors")
            && Listed(list, 3 + a + p, "MemorySubsystem", "DmtfPower_Memory", "Memory", memories)
            && list[3 + a + p + m] == Entry("MemorySubsystem", "DmtfPower_Memories", 255, "Memories")
  {
    hide Group, ToString;
    assert "DmtfPower" + ("_" + "Accelerator") == "DmtfPower_Accelerator";
    assert "DmtfPower" + ("_" + "Accelerators") == "DmtfPower_Accelerators";
    assert "DmtfPower" + ("_" + "Processor") == "DmtfPower_Processor";
    assert "DmtfPower" + ("_" + "Processors") == "DmtfPower_Processors";
    assert "DmtfPower" + ("_" + "Memory") == "DmtfPower_Memory";
    assert "DmtfPower" + ("_" + "Memories") == "DmtfPower_Memories";
    GroupListed("PCIe", "Accelerator", "Accelerators", accelerators, "DmtfPower_Accelerator");
    GroupListed("CPUSubsystem", "Processor", "Processors", processors, "DmtfPower_Processor");
    GroupListed("MemorySubsystem", "Memory", "Memories", memories, "DmtfPower_Memory");
  }

  method PushDevices(list: seq<Entry>, domain: string, name: string, devices: seq<DeviceIndex>) returns (out: seq<Entry>)
    ensures out == list + DeviceEntries(domain, name, devices)
  {
    out := list;
    var i := 0;
    while i < |devices|
      invariant i <= |devices|
      invariant out == list + DeviceEntries(domain, name, devices[..i])
    {
      out := out + [DeviceEntry(domain, name, devices[i])];
      assert DeviceEntries(domain, name, devices[..i + 1])
          == DeviceEntries(domain, name, devices[..i]) + [DeviceEntry(domain, name, devices[i])];
      i := i + 1;
    }
    assert devices[..i] == devices;
  }

  method BuildDomainPolicyMap(processors: seq<DeviceIndex>, memories: seq<DeviceIndex>, accelerators: seq<DeviceIndex>)
    returns (list: seq<Entry>)
    ensures list == DomainPolicyMap(processors, memories, accelerators)
  {
    list := [ROOT_ENTRY];
    list := PushDevices(list, PCIE_DOMAIN_ID, "Accelerator", accelerators);
    list := list + [GroupEntry(PCIE_DOMAIN_ID, "Accelerators")];
    list := PushDevices(list, CPU_DOMAIN_ID, "Processor", processors);
    list := list + [GroupEntry(CPU_DOMAIN_ID, "Processors")];
    list := PushDevices(list, MEMORY_DOMAIN_ID, "Memory", memories);
    list := list + [GroupEntry(MEMORY_DOMAIN_ID, "Memories")];
  }

  // ------------------------------------------------------------------ the GET layout

  /** The slot shows the entry: its member id and link, and values read from its policy. */
  predicate Shows(node: Node, e: Entry, chassis: string) {
    && node.memberId == Some(e.memberId)
    && node.odataId == Some("/redfish/v1/Chassis/" + chassis + "/Power/PowerControl/" + e.memberId)
    && node.source == Some((e.domain, e.policy))
  }

  /** The advertised number of related items is the number of links. */
  predicate CountsLinks(node: Node) { node.relatedCount == Some(|node.related|) }

  /** Slot by slot, the array shows the list. */
  predicate ShowsAll(nodes: seq<Node>, list: seq<Entry>, chassis: string) {
    |nodes| == |list| && forall i | 0 <= i < |list| :: Shows(nodes[i], list[i], chassis) && CountsLinks(nodes[i])
  }

  function Links(chassis: string, entries: seq<Entry>): seq<string> {
    seq(|entries|, i requires 0 <= i < |entries| => OdataId(chassis, entries[i].memberId))
  }

  /** The links a group contributes to the root: its own first, then its devices'. */
  function GroupLinks(chassis: string, domain: string, name: string, plural: string, devices: seq<DeviceIndex>): seq<string> {
    [OdataId(chassis, plural)] + Links(chassis, DeviceEntries(domain, name, devices))
  }

  /** A device's slot is in place at `idx`; its aggregator and the root have gained the link. */
  predicate Placed(now: seq<Node>, was: seq<Node>, idx: nat, aggregatorIdx: nat, e: Entry, chassis: string)
    requires POWER_ROOT_NODE < idx < |was| && POWER_ROOT_NODE < aggregatorIdx < |was|
  {
    var link := OdataId(chassis, e.memberId);
    && |now| == |was|
    && Shows(now[idx], e, chassis) && now[idx].relatedCount == Some(0) && now[idx].related == []
    && (forall i | 0 <= i < |now| && i != idx && i != POWER_ROOT_NODE && i != aggregatorIdx :: now[i] == was[i])
    && now[POWER_ROOT_NODE] == WithLink(was[POWER_ROOT_NODE], link)
    && now[aggregatorIdx] == WithLink(was[aggregatorIdx], link)
  }

  /** `idx` of a group's device slots are in place behind `was`, the group's own slot behind them all. */
  predicate GroupSoFar(now: seq<Node>, was: seq<Node>, entries: seq<Entry>, aggregate: Node, root: Node, idx: nat, chassis: string)
    requires 0 < |was| && idx <= |entries|
  {
    var offset := |was|;
    && |now| == offset + |entries| + 1
    && now[1..offset] == was[1..]
    && ShowsAll(now[offset..offset + idx], entries[..idx], chassis)
    && (forall i | offset <= i < offset + idx :: now[i].related == [])
    && now[offset + |entries|] == aggregate.(related := Links(chassis, entries[..idx]))
    && now[POWER_ROOT_NODE] == root.(related := root.related + Links(chassis, entries[..idx]))
  }

  lemma GroupStep(now: seq<Node>, before: seq<Node>, was: seq<Node>, entries: seq<Entry>, aggregate: Node, root: Node,
                  idx: nat, chassis: string)
    requires 0 < |was| && idx < |entries| && GroupSoFar(before, was, entries, aggregate, root, idx, chassis)
    requires Placed(now, before, |was| + idx, |was| + |entries|, entries[idx], chassis)
    ensures GroupSoFar(now, was, entries, aggregate, root, idx + 1, chassis)
  {
    hide Shows, ShowsAll, Links, OdataId;
    var offset := |was|;
    OneMoreLink(chassis, entries, idx);
    assert now[offset + idx].relatedCount == Some(0);
    ComponentCounts(now[offset + idx]);
    ShowsOne(now[offset + idx], entries[idx], chassis);
    ShowsAppend(before[offset..offset + idx], [now[offset + idx]], entries[..idx], [entries[idx]], chassis);
    assert now[offset..offset + idx + 1] == before[offset..offset + idx] + [now[offset + idx]];
    assert entries[..idx + 1] == entries[..idx] + [entries[idx]];
  }

  /** What `getNmDmtfGroup` does to the array. */
  predicate GroupAdded(now: seq<Node>, was: seq<Node>, chassis: string,
                       domain: string, name: string, plural: string, devices: seq<DeviceIndex>)
    requires 0 < |was|
  {
    && |now| == |was| + |devices| + 1
    && now[1..|was|] == was[1..]
    && ShowsAll(now[|was|..], Group(domain, name, plural, devices), chassis)
    && (forall i | |was| <= i < |was| + |devices| :: now[i].related == [])
    && now[POWER_ROOT_NODE] == was[POWER_ROOT_NODE].(related := was[POWER_ROOT_NODE].related
                                                       + GroupLinks(chassis, domain, name, plural, devices))
    && now[|was| + |devices|].related == Links(chassis, DeviceEntries(domain, name, devices))
  }

  lemma GroupDone(now: seq<Node>, was: seq<Node>, aggregate: Node, root: Node, chassis: string,
                  domain: string, name: string, plural: string, devices: seq<DeviceIndex>)
    requires 0 < |was| && plural != "0"
    requires GroupSoFar(now, was, DeviceEntries(domain, name, devices), aggregate, root, |devices|, chassis)
    requires aggregate.memberId == Some(plural) && aggregate.odataId == Some(OdataId(chassis, plural))
    requires aggregate.source == Some((domain, PolicyNameOf(plural))) && aggregate.relatedCount == Some(|devices|)
    requires root == WithLink(was[POWER_ROOT_NODE], OdataId(chassis, plural))
    ensures GroupAdded(now, was, chassis, domain, name, plural, devices)
  {
    hide Shows, ShowsAll, Links, OdataId, DeviceEntries, PolicyNameOf;
    var entries := DeviceEntries(domain, name, devices);
    var offset, n := |was|, |devices|;
    assert |entries| == n by { EntryCount(domain, name, devices); }
    assert entries[..n] == entries;
    AggregateShows(now[offset + n], domain, plural, chassis, entries);
    ShowsOne(now[offset + n], GroupEntry(domain, plural), chassis);
    ShowsAppend(now[offset..offset + n], [now[offset + n]], entries, [GroupEntry(domain, plural)], chassis);
    assert now[offset..] == now[offset..offset + n] + [now[offset + n]];
  }

  lemma EntryCount(domain: string, name: string, devices: seq<DeviceIndex>)
    ensures |DeviceEntries(domain, name, devices)| == |devices|
  {
  }

  /** Three groups behind a root node whose advertised count is right make the whole array. */
  lemma GroupsMakeArray(root: Node, n1: seq<Node>, n2: seq<Node>, n3: seq<Node>, chassis: string,
                        processors: seq<DeviceIndex>, memories: seq<DeviceIndex>, accelerators: seq<DeviceIndex>)
    requires GroupAdded(n1, [root], chassis, PCIE_DOMAIN_ID, "Accelerator", "Accelerators", accelerators)
    requires GroupAdded(n2, n1, chassis, CPU_DOMAIN_ID, "Processor", "Processors", processors)
    requires GroupAdded(n3, n2, chassis, MEMORY_DOMAIN_ID, "Memory", "Memories", memories)
    requires root.memberId == Some("0") && root.odataId == Some(OdataId(chassis, "0")) && root.related == []
    requires root.source == Some((DC_TOTAL_POWER_DOMAIN_ID, DMTF_POWER_POLICY_ID))
    requires root.relatedCount == Some(|processors| + |memories| + |accelerators| + 3)
    ensures ShowsAll(n3, DomainPolicyMap(processors, memories, accelerators), chassis)
  {
    hide Shows, CountsLinks, OdataId, ShowsAll, Group, GroupLinks, Links;
    var ga := Group(PCIE_DOMAIN_ID, "Accelerator", "Accelerators", accelerators);
    var gp := Group(CPU_DOMAIN_ID, "Processor", "Processors", processors);
    var gm := Group(MEMORY_DOMAIN_ID, "Memory", "Memories", memories);
    var sa, sp, sm := n1[1..], n2[|n1|..], n3[|n2|..];
    assert n2[1..] == sa + sp by { assert n2[1..] == n2[1..|n1|] + n2[|n1|..]; }
    assert n3[1..] == sa + sp + sm by { assert n3[1..] == n3[1..|n2|] + n3[|n2|..]; }
    assert n3 == [n3[0]] + sa + sp + sm;
    var la := GroupLinks(chassis, PCIE_DOMAIN_ID, "Accelerator", "Accelerators", accelerators);
    var lp := GroupLinks(chassis, CPU_DOMAIN_ID, "Processor", "Processors", processors);
    var lm := GroupLinks(chassis, MEMORY_DOMAIN_ID, "Memory", "Memories", memories);
    assert n3[0] == root.(related := [] + la + lp + lm);
    RootShows(n3[0], chassis, processors, memories, accelerators);
    ShowsAppend([n3[0]], sa, [ROOT_ENTRY], ga, chassis);
    ShowsAppend([n3[0]] + sa, sp, [ROOT_ENTRY] + ga, gp, chassis);
    ShowsAppend([n3[0]] + sa + sp, sm, [ROOT_ENTRY] + ga + gp, gm, chassis);
  }

  // ------------------------------------------------------------------ where the links lead

  lemma AddedKeeps(now: seq<Node>, was: seq<Node>, chassis: string,
                   domain: string, name: string, plural: string, devices: seq<DeviceIndex>)
    requires 0 < |was| && GroupAdded(now, was, chassis, domain, name, plural, devices)
    ensures |now| > |was| && forall i | 1 <= i < |was| :: now[i] == was[i]
  {
    hide ShowsAll, Group, GroupLinks, Links, OdataId;
    forall i | 1 <= i < |was| ensures now[i] == was[i] {
      assert now[1..|was|][i - 1] == was[1..][i - 1];
    }
  }

  lemma RootGathers(root: Node, n1: seq<Node>, n2: seq<Node>, n3: seq<Node>, chassis: string,
                    processors: seq<DeviceIndex>, memories: seq<DeviceIndex>, accelerators: seq<DeviceIndex>)
    requires GroupAdded(n1, [root], chassis, PCIE_DOMAIN_ID, "Accelerator", "Accelerators", accelerators)
    requires GroupAdded(n2, n1, chassis, CPU_DOMAIN_ID, "Processor", "Processors", processors)
    requires GroupAdded(n3, n2, chassis, MEMORY_DOMAIN_ID, "Memory", "Memories", memories)
    requires root.related == []
    ensures |n3| > 0 && n3[POWER_ROOT_NODE].related == RootLinks(chassis, processors, memories, accelerators)
  {
    hide ShowsAll, Group, GroupLinks, Links, OdataId;
    var la := GroupLinks(chassis, PCIE_DOMAIN_ID, "Accelerator", "Accelerators", accelerators);
    assert [] + la == la;
  }

  function Id(node: Node): string { node.odataId.GetOr("") }

  function Ids(nodes: seq<Node>): seq<string> {
    seq(|nodes|, i requires 0 <= i < |nodes| => Id(nodes[i]))
  }

  /** A group links to its devices' slots in order, and these have no links. */
  predicate OwnLinks(slots: seq<Node>, aggregate: Node) {
    aggregate.related == Ids(slots) && forall s | s in slots :: s.related == []
  }

  /**
    All links of the array by slot, `a`, `p` and `m` being the numbers of
    accelerators, processors and memories: the root links to each group, and
    behind it to the group's devices.
   */
  predicate Linked(nodes: seq<Node>, a: nat, p: nat, m: nat) {
    && |nodes| == a + p + m + 4
    && OwnLinks(nodes[1..1 + a], nodes[1 + a])
    && OwnLinks(nodes[2 + a..2 + a + p], nodes[2 + a + p])
    && OwnLinks(nodes[3 + a + p..3 + a + p + m], nodes[3 + a + p + m])
    && nodes[0].related == [Id(nodes[1 + a])] + Ids(nodes[1..1 + a])
                           + ([Id(nodes[2 + a + p])] + Ids(nodes[2 + a..2 + a + p]))
                           + ([Id(nodes[3 + a + p + m])] + Ids(nodes[3 + a + p..3 + a + p + m]))
  }

  lemma IdsAreLinks(slots: seq<Node>, entries: seq<Entry>, chassis: string)
    requires ShowsAll(slots, entries, chassis)
    ensures Ids(slots) == Links(chassis, entries)
  {
    forall i | 0 <= i < |slots| ensures Id(slots[i]) == OdataId(chassis, entries[i].memberId) {
      assert Shows(slots[i], entries[i], chassis);
    }
  }

  lemma ShowsPart(nodes: seq<Node>, list: seq<Entry>, chassis: string, n: nat)
    requires ShowsAll(nodes, list, chassis) && n <= |nodes|
    ensures ShowsAll(nodes[..n], list[..n], chassis)
    ensures n < |nodes| ==> Id(nodes[n]) == OdataId(chassis, list[n].memberId)
  {
    if n < |nodes| {
      assert Shows(nodes[n], list[n], chassis);
    }
  }

  /** A group's links and the root's new ones are the ids of the group's slots. */
  lemma GroupIds(now: seq<Node>, was: seq<Node>, chassis: string,
                 domain: string, name: string, plural: string, devices: seq<DeviceIndex>)
    requires 0 < |was| && GroupAdded(now, was, chassis, domain, name, plural, devices)
    ensures var slots, aggregate := now[|was|..|was| + |devices|], now[|was| + |devices|];
            && OwnLinks(slots, aggregate)
            && GroupLinks(chassis, domain, name, plural, devices) == [Id(aggregate)] + Ids(slots)
  {
    hide ShowsAll, OdataId, Links, DeviceEntries, Ids;
    var n := |devices|;
    var entries, group := DeviceEntries(domain, name, devices), Group(domain, name, plural, devices);
    var added := now[|was|..];
    var slots := now[|was|..|was| + n];
    EntryCount(domain, name, devices);
    ShowsPart(added, group, chassis, n);
    assert added[..n] == slots && group[..n] == entries;
    IdsAreLinks(slots, entries, chassis);
    GroupEntryName(domain, plural);
    assert group[n] == GroupEntry(domain, plural) && added[n] == now[|was| + n];
    forall s | s in slots ensures s.related == [] {
      var k :| 0 <= k < n && slots[k] == s;
      assert s == now[|was| + k];
    }
  }

  lemma GroupEntryName(domain: string, plural: string)
    ensures GroupEntry(domain, plural).memberId == plural
  {
  }

  /** All links of the finished array. */
  lemma ArrayLinked(root: Node, n1: seq<Node>, n2: seq<Node>, n3: seq<Node>, chassis: string,
                    processors: seq<DeviceIndex>, memories: seq<DeviceIndex>, accelerators: seq<DeviceIndex>)
    requires GroupAdded(n1, [root], chassis, PCIE_DOMAIN_ID, "Accelerator", "Accelerators", accelerators)
    requires GroupAdded(n2, n1, chassis, CPU_DOMAIN_ID, "Processor", "Processors", processors)
    requires GroupAdded(n3, n2, chassis, MEMORY_DOMAIN_ID, "Memory", "Memories", memories)
    requires root.related == []
    ensures Linked(n3, |accelerators|, |processors|, |memories|)
  {
    hide GroupAdded, OwnLinks, Ids, GroupLinks, Id;
    AddedLength(n1, [root], chassis, PCIE_DOMAIN_ID, "Accelerator", "Accelerators", accelerators);
    AddedLength(n2, n1, chassis, CPU_DOMAIN_ID, "Processor", "Processors", processors);
    AddedLength(n3, n2, chassis, MEMORY_DOMAIN_ID, "Memory", "Memories", memories);
    RootGathers(root, n1, n2, n3, chassis, processors, memories, accelerators);
    GroupIds(n1, [root], chassis, PCIE_DOMAIN_ID, "Accelerator", "Accelerators", accelerators);
    GroupIds(n2, n1, chassis, CPU_DOMAIN_ID, "Processor", "Processors", processors);
    GroupIds(n3, n2, chassis, MEMORY_DOMAIN_ID, "Memory", "Memories", memories);
    AddedKeeps(n2, n1, chassis, CPU_DOMAIN_ID, "Processor", "Processors", processors);
    AddedKeeps(n3, n2, chassis, MEMORY_DOMAIN_ID, "Memory", "Memories", memories);
    var (a, p, m) := (|accelerators|, |processors|, |memories|);
    SlotsKept(n2, n1, 1, 1 + a);
    SlotsKept(n3, n2, 1, 1 + a);
    SlotsKept(n3, n2, 2 + a, 2 + a + p);
  }

  lemma IdsLand(nodes: seq<Node>, from: nat, to: nat, link: string)
    requires from <= to <= |nodes| && link in Ids(nodes[from..to])
    ensures exists j | 0 <= j < |nodes| :: Id(nodes[j]) == link
  {
    var k :| 0 <= k < to - from && Ids(nodes[from..to])[k] == link;
    assert Id(nodes[from + k]) == link;
  }

  lemma DevicesLinkless(nodes: seq<Node>, from: nat, to: nat)
    requires from <= to < |nodes| && OwnLinks(nodes[from..to], nodes[to])
    ensures forall i | from <= i < to :: nodes[i].related == []
  {
    forall i | from <= i < to ensures nodes[i].related == [] {
      assert nodes[i] == nodes[from..to][i - from];
    }
  }

  /** No link leads out of the array. */
  lemma LinkLands(nodes: seq<Node>, a: nat, p: nat, m: nat, i: nat, link: string)
    requires Linked(nodes, a, p, m) && i < |nodes| && link in nodes[i].related
    ensures exists j | 0 <= j < |nodes| :: Id(nodes[j]) == link
  {
    hide Ids, Id;
    var sa, sp, sm := nodes[1..1 + a], nodes[2 + a..2 + a + p], nodes[3 + a + p..3 + a + p + m];
    DevicesLinkless(nodes, 1, 1 + a);
    DevicesLinkless(nodes, 2 + a, 2 + a + p);
    DevicesLinkless(nodes, 3 + a + p, 3 + a + p + m);
    if link in Ids(sa) {
      IdsLand(nodes, 1, 1 + a, link);
    } else if link in Ids(sp) {
      IdsLand(nodes, 2 + a, 2 + a + p, link);
    } else if link in Ids(sm) {
      IdsLand(nodes, 3 + a + p, 3 + a + p + m, link);
    } else {
      assert link in [Id(nodes[1 + a]), Id(nodes[2 + a + p]), Id(nodes[3 + a + p + m])];
    }
  }

  lemma SlotsKept(now: seq<Node>, was: seq<Node>, from: nat, to: nat)
    requires 1 <= from <= to < |was| < |now| && forall i | 1 <= i < |was| :: now[i] == was[i]
    ensures now[from..to] == was[from..to] && now[to] == was[to]
  {
  }

  function WithLink(node: Node, link: string): Node { node.(related := node.related + [link]) }

  class Document {
    const chassis: string
    var nodes: seq<Node>

    constructor (chassis: string)
      ensures this.chassis == chassis && nodes == []
    {
      this.chassis, this.nodes := chassis, [];
    }

    /** Indexing the JSON array for writing brings every slot up to `idx` into being. */
    method Touch(idx: nat)
      modifies this
      ensures |nodes| == if idx < |old(nodes)| then |old(nodes)| else idx + 1
      ensures forall i | 0 <= i < |nodes| :: nodes[i] == if i < |old(nodes)| then old(nodes)[i] else NULL_NODE
    {
      while |nodes| <= idx
        invariant |old(nodes)| <= |nodes| && (|nodes| <= idx + 1 || nodes == old(nodes))
        invariant forall i | 0 <= i < |nodes| :: nodes[i] == if i < |old(nodes)| then old(nodes)[i] else NULL_NODE
        decreases idx + 1 - |nodes|
      {
        nodes := nodes + [NULL_NODE];
      }
    }

    method PushRelated(idx: nat, link: string)
      requires idx < |nodes|
      modifies this
      ensures nodes == old(nodes)[idx := WithLink(old(nodes)[idx], link)]
    {
      nodes := nodes[idx := nodes[idx].(related := nodes[idx].related + [link])];
    }

    /**
      `getPowerControlComponentNode`. The aggregator and the root each gain a
      link to the new slot; the slot itself ends up without links.
     */
    method ComponentNode(domain: string, device: DeviceIndex, idx: nat, name: string, aggregatorIdx: nat)
      requires POWER_ROOT_NODE < idx < |nodes| && aggregatorIdx < |nodes| && aggregatorIdx != idx
      modifies this
      ensures |nodes| == |old(nodes)|
      ensures var e := Entry(domain, PolicyNameOfDevice(name, device), device, name + ToString(device));
              if aggregatorIdx != POWER_ROOT_NODE
              then Placed(nodes, old(nodes), idx, aggregatorIdx, e, chassis)
              else Shows(nodes[idx], e, chassis) && CountsLinks(nodes[idx])
    {
      var nameId := name + ToString(device);
      nodes := nodes[idx := nodes[idx].(relatedCount := Some(0), memberId := Some(nameId),
                                        odataId := Some(OdataId(chassis, nameId)))];
      PushRelated(POWER_ROOT_NODE, nodes[idx].odataId.value);
      PushRelated(aggregatorIdx, nodes[idx].odataId.value);
      nodes := nodes[idx := nodes[idx].(related := [])];
      var policyId := PolicyNameOfDevice(name, device);
      nodes := nodes[idx := nodes[idx].(source := Some((domain, policyId)))];
    }

    /** `getPowerControlAggregateNode` */
    method AggregateNode(name: string, idx: nat, domain: string)
      requires POWER_ROOT_NODE < idx < |nodes|
      modifies this
      ensures var link := OdataId(chassis, name);
              nodes == old(nodes)
                [idx := old(nodes)[idx].(memberId := Some(name), odataId := Some(link), source := Some((domain, PolicyNameOf(name))))]
                [POWER_ROOT_NODE := WithLink(old(nodes)[POWER_ROOT_NODE], link)]
    {
      nodes := nodes[idx := nodes[idx].(memberId := Some(name), odataId := Some(OdataId(chassis, name)))];
      PushRelated(POWER_ROOT_NODE, nodes[idx].odataId.value);
      var policyId := PolicyNameOf(name);
      nodes := nodes[idx := nodes[idx].(source := Some((domain, policyId)))];
    }

    /**
      `getNmDmtfGroup`: the devices' slots from `offset` on, then the group's.
      The root gains a link to each, the group's first.
     */
    method GroupNodes(offset: nat, components: seq<DeviceIndex>, plural: string, name: string, domain: string)
      requires POWER_ROOT_NODE < offset == |nodes| && plural != "0"
      modifies this
      ensures GroupAdded(nodes, old(nodes), chassis, domain, name, plural, components)
    {
      hide Shows, ShowsAll, OdataId, CountsLinks, Links, ToString, PolicyNameOfDevice, DeviceEntry, PolicyNameOf, GroupAdded;
      var n := |components|;
      Touch(offset + n);
      nodes := nodes[offset + n := nodes[offset + n].(relatedCount := Some(n))];
      nodes := nodes[offset + n := nodes[offset + n].(related := [])];
      AggregateNode(plural, offset + n, domain);
      ghost var was, entries := old(nodes), DeviceEntries(domain, name, components);
      ghost var aggregate, root := nodes[offset + n], nodes[POWER_ROOT_NODE];
      NoLinks(chassis, entries);
      ShowsNone(chassis);
      assert nodes[offset..offset] == [] && entries[..0] == [];
      assert GroupSoFar(nodes, was, entries, aggregate, root, 0, chassis);
      hide GroupSoFar, Placed;
      var idx := 0;
      while idx < n
        invariant idx <= n && |nodes| == offset + n + 1
        invariant GroupSoFar(nodes, was, entries, aggregate, root, idx, chassis)
      {
        ghost var before := nodes;
        DeviceEntryIs(domain, name, components[idx]);
        ComponentNode(domain, components[idx], offset + idx, name, offset + n);
        PlacedLength(nodes, before, offset + idx, offset + n, entries[idx], chassis);
        GroupStep(nodes, before, was, entries, aggregate, root, idx, chassis);
        idx := idx + 1;
      }
      GroupDone(nodes, was, aggregate, root, chassis, domain, name, plural, components);
    }

    /** `collectNmDmtfData`: the whole array. */
    method CollectNmDmtfData(processors: seq<DeviceIndex>, memories: seq<DeviceIndex>, accelerators: seq<DeviceIndex>)
      requires nodes == []
      modifies this
      ensures var list := DomainPolicyMap(processors, memories, accelerators);
              && |list| == |accelerators| + |processors| + |memories| + 4
              && ShowsAll(nodes, list, chassis)
              && Linked(nodes, |accelerators|, |processors|, |memories|)
    {
      Touch(POWER_ROOT_NODE);
      var a, p, m := |accelerators|, |processors|, |memories|;
      nodes := nodes[POWER_ROOT_NODE := nodes[POWER_ROOT_NODE].(
        relatedCount := Some(p + m + a + 3), memberId := Some("0"), odataId := Some(OdataId(chassis, "0")),
        source := Some((DC_TOTAL_POWER_DOMAIN_ID, DMTF_POWER_POLICY_ID)))];
      hide GroupAdded, ShowsAll, OdataId, DomainPolicyMap, Linked;
      GroupLengths(processors, memories, accelerators);
      ghost var root := nodes[0];
      assert nodes == [root];
      GroupNodes(1, accelerators, "Accelerators", "Accelerator", PCIE_DOMAIN_ID);
      ghost var n1 := nodes;
      AddedLength(n1, [root], chassis, PCIE_DOMAIN_ID, "Accelerator", "Accelerators", accelerators);
      GroupNodes(2 + a, processors, "Processors", "Processor", CPU_DOMAIN_ID);
      ghost var n2 := nodes;
      AddedLength(n2, n1, chassis, CPU_DOMAIN_ID, "Processor", "Processors", processors);
      GroupNodes(3 + a + p, memories, "Memories", "Memory", MEMORY_DOMAIN_ID);
      GroupsMakeArray(root, n1, n2, nodes, chassis, processors, memories, accelerators);
      ArrayLinked(root, n1, n2, nodes, chassis, processors, memories, accelerators);
    }
  }

  lemma PlacedLength(now: seq<Node>, was: seq<Node>, idx: nat, aggregatorIdx: nat, e: Entry, chassis: string)
    requires POWER_ROOT_NODE < idx < |was| && POWER_ROOT_NODE < aggregatorIdx < |was|
    requires Placed(now, was, idx, aggregatorIdx, e, chassis)
    ensures |now| == |was|
  {
  }

  lemma AddedLength(now: seq<Node>, was: seq<Node>, chassis: string,
                    domain: string, name: string, plural: string, devices: seq<DeviceIndex>)
    requires 0 < |was| && GroupAdded(now, was, chassis, domain, name, plural, devices)
    ensures |now| == |was| + |devices| + 1
  {
  }

  lemma GroupLengths(processors: seq<DeviceIndex>, memories: seq<DeviceIndex>, accelerators: seq<DeviceIndex>)
    ensures |Group(PCIE_DOMAIN_ID, "Accelerator", "Accelerators", accelerators)| == |accelerators| + 1
    ensures |Group(CPU_DOMAIN_ID, "Processor", "Processors", processors)| == |processors| + 1
    ensures |Group(MEMORY_DOMAIN_ID, "Memory", "Memories", memories)| == |memories| + 1
    ensures |DomainPolicyMap(processors, memories, accelerators)| == |accelerators| + |processors| + |memories| + 4
  {
  }

  /** The links that end up in the root: one to every other slot. */
  function RootLinks(chassis: string, processors: seq<DeviceIndex>, memories: seq<DeviceIndex>, accelerators: seq<DeviceIndex>): seq<string> {
    GroupLinks(chassis, PCIE_DOMAIN_ID, "Accelerator", "Accelerators", accelerators)
    + GroupLinks(chassis, CPU_DOMAIN_ID, "Processor", "Processors", processors)
    + GroupLinks(chassis, MEMORY_DOMAIN_ID, "Memory", "Memories", memories)
  }

  lemma RootShows(root: Node, chassis: string,
                  processors: seq<DeviceIndex>, memories: seq<DeviceIndex>, accelerators: seq<DeviceIndex>)
    requires root.memberId == Some("0") && root.odataId == Some(OdataId(chassis, "0"))
    requires root.source == Some((DC_TOTAL_POWER_DOMAIN_ID, DMTF_POWER_POLICY_ID))
    requires root.relatedCount == Some(|processors| + |memories| + |accelerators| + 3)
    requires root.related == RootLinks(chassis, processors, memories, accelerators)
    ensures ShowsAll([root], [ROOT_ENTRY], chassis)
  {
  }

  lemma ShowsNone(chassis: string)
    ensures ShowsAll([], [], chassis)
  {
  }

  lemma ShowsOne(node: Node, e: Entry, chassis: string)
    requires Shows(node, e, chassis) && CountsLinks(node)
    ensures ShowsAll([node], [e], chassis)
  {
  }

  lemma ShowsAppend(a: seq<Node>, b: seq<Node>, la: seq<Entry>, lb: seq<Entry>, chassis: string)
    requires ShowsAll(a, la, chassis) && ShowsAll(b, lb, chassis)
    ensures ShowsAll(a + b, la + lb, chassis)
  {
  }

  lemma NoLinks(chassis: string, entries: seq<Entry>)
    ensures Links(chassis, entries[..0]) == []
  {
  }

  lemma OneMoreLink(chassis: string, entries: seq<Entry>, k: nat)
    requires k < |entries|
    ensures Links(chassis, entries[..k + 1]) == Links(chassis, entries[..k]) + [OdataId(chassis, entries[k].memberId)]
  {
  }

  lemma ComponentCounts(node: Node)
    requires node.relatedCount == Some(0) && node.related == []
    ensures CountsLinks(node)
  {
  }

  lemma AggregateShows(node: Node, domain: string, plural: string, chassis: string, entries: seq<Entry>)
    requires plural != "0"
    requires node.memberId == Some(plural) && node.odataId == Some(OdataId(chassis, plural))
    requires node.source == Some((domain, PolicyNameOf(plural)))
    requires node.relatedCount == Some(|entries|) && node.related == Links(chassis, entries)
    ensures Shows(node, GroupEntry(domain, plural), chassis) && CountsLinks(node)
  {
    assert PolicyNameOf(plural) == GroupEntry(domain, plural).policy;
  }

  /** The two ways the source writes a device's policy name agree. */
  lemma DeviceEntryIs(domain: string, name: string, device: DeviceIndex)
    ensures DeviceEntry(domain, name, device)
         == Entry(domain, PolicyNameOfDevice(name, device), device, name + ToString(device))
  {
    SameConcat(DMTF_POWER_POLICY_ID, "_", name, ToString(device));
  }

  lemma SameConcat(a: string, b: string, c: string, d: string)
    ensures a + b + c + d == a + (b + c) + d
  {
    assert a + b + c == a + (b + c);
  }
}
