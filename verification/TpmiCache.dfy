/**
  The cache object itself: the handlers for D-Bus signals, replies and write
  completions, each proved to be the corresponding step of TpmiModel.dfy.
 */
module TpmiCache {
  import opened Options
  import opened TpmiModel

  class TpmiDBusCache {
    var cpus: map<int, Cpu>
    var features: map<int, Feature>
    var pending: seq<Write>

    ghost function View(): Cache
      reads this
    {
      Cache(cpus, features, pending)
    }

    constructor ()
      ensures View() == Cache(map[], map[], [])
    {
      cpus, features, pending := map[], map[], [];
    }

    method SetProperty(index: int, property: Property, value: bool)
      modifies this
      ensures View() == TpmiModel.SetProperty(old(View()), index, property, value)
    {
      pending := pending + [Write(index, property, value)];
    }

    method RemoveCpu(index: int)
      modifies this
      ensures View() == TpmiModel.RemoveCpu(old(View()), index)
    {
      cpus := cpus - {index};
    }

    method RemoveFeature(index: int)
      modifies this
      ensures View() == TpmiModel.RemoveFeature(old(View()), index)
    {
      features := features - {index};
    }

    method AddCpu(index: int, cpu: Option<Cpu>)
      modifies this
      ensures View() == TpmiModel.AddCpu(old(View()), index, cpu)
    {
      if cpu.None? {
        RemoveCpu(index);
        return;
      }
      cpus := cpus[index := cpu.value];
    }

    method AddSstFeature(index: int, properties: Option<Feature>)
      modifies this
      ensures View() == TpmiModel.AddSstFeature(old(View()), index, properties)
    {
      if properties.None? {
        RemoveFeature(index);
        return;
      }
      var feature := properties.value;
      if !feature.enabled {
        if !feature.locked {
          SetProperty(index, Enabled, true);
        } else {
          RemoveFeature(index);
          return;
        }
      }
      if feature.usePcs {
        if !feature.locked {
          SetProperty(index, UsePcs, false);
        } else {
          RemoveFeature(index);
          return;
        }
      }
      features := features[index := feature];
    }

    method InterfacesAdded(path: Option<Path>, interfaces: seq<Interface>)
      modifies this
      ensures View() == if path.Some? && path.value.featureId in {-1, 5} then Run(old(View()), Adds(path.value.cpuIndex, interfaces)) else old(View())
    {
      if path.None? {
        return;
      }
      if path.value.featureId != INVALID_PATH_COMPONENT && path.value.featureId != SST_TPMI_ID {
        return;
      }
      var i := 0;
      while i < |interfaces|
        invariant i <= |interfaces|
        invariant View() == Run(old(View()), Adds(path.value.cpuIndex, interfaces[..i]))
      {
        assert Adds(path.value.cpuIndex, interfaces[..i + 1])[..i] == Adds(path.value.cpuIndex, interfaces[..i]);
        match interfaces[i] {
          case TpmiCpu(cpu) => AddCpu(path.value.cpuIndex, cpu);
          case TpmiFeature(feature) => AddSstFeature(path.value.cpuIndex, feature);
          case Other =>
        }
        i := i + 1;
      }
      assert interfaces[..i] == interfaces;
    }

    method InterfacesRemoved(path: Option<Path>, interfaces: seq<Interface>)
      modifies this
      ensures View() == if path.Some? && path.value.featureId in {-1, 5} then Run(old(View()), Removes(path.value.cpuIndex, interfaces)) else old(View())
    {
      if path.None? {
        return;
      }
      if path.value.featureId != INVALID_PATH_COMPONENT && path.value.featureId != SST_TPMI_ID {
        return;
      }
      var i := 0;
      while i < |interfaces|
        invariant i <= |interfaces|
        invariant View() == Run(old(View()), Removes(path.value.cpuIndex, interfaces[..i]))
      {
        assert Removes(path.value.cpuIndex, interfaces[..i + 1])[..i] == Removes(path.value.cpuIndex, interfaces[..i]);
        match interfaces[i] {
          case TpmiCpu(_) => RemoveCpu(path.value.cpuIndex);
          case TpmiFeature(_) => RemoveFeature(path.value.cpuIndex);
          case Other =>
        }
        i := i + 1;
      }
      assert interfaces[..i] == interfaces;
    }

    /** The reply to one of the property reads that follow GetSubTree; `Other` stands for an error reply. */
    method PropertiesReply(index: int, i: Interface)
      modifies this
      ensures View() == AddInterface(old(View()), index, i)
    {
      match i {
        case TpmiCpu(cpu) => AddCpu(index, cpu);
        case TpmiFeature(feature) => AddSstFeature(index, feature);
        case Other =>
      }
    }

    /** The completion handler of a property write. */
    method WriteCompleted(k: nat, ok: bool) returns (thrown: bool)
      requires k < |pending|
      modifies this
      ensures View() == WriteDone(old(View()), k, ok)
      ensures thrown <==> ok && old(pending)[k].index !in old(features)
      ensures cpus == old(cpus) && pending == old(pending)[..k] + old(pending)[k + 1..]
      ensures !ok || thrown ==> features == old(features)
      ensures ok && !thrown ==>
                var w := old(pending)[k];
                var f := old(features)[w.index];
                features == old(features)[w.index :=
                  match w.property
                  case Enabled => f.(enabled := w.value)
                  case InBandWrite => f.(inBandWrite := w.value)
                  case InBandRead => f.(inBandRead := w.value)
                  case UsePcs => f.(usePcs := w.value)
                  case Locked => f.(locked := w.value)]
    {
      var w := pending[k];
      pending := pending[..k] + pending[k + 1..];
      if !ok {
        return false;
      }
      if w.index !in features {
        return true;
      }
      var feature := features[w.index];
      features := features[w.index := feature.With(w.property, w.value)];
      return false;
    }

    /** `contains` and the rest of `ready()`. */
    method Ready(index: int) returns (ready: bool)
      ensures ready <==> index in cpus && index in features && features[index].enabled && !features[index].usePcs
      ensures ready == TpmiModel.Ready(View(), index)
    {
      if index !in cpus || index !in features {
        return false;
      }
      var sst := features[index];
      return sst.enabled && !sst.usePcs;
    }
  }
}
