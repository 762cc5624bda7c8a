/** Which nodes stand in /dev: their numbers, and when they go. */
module DeviceDbNodes {
  import opened CStrings
  import opened Records
  import opened DeviceDb
  import opened DeviceDbProofs
  import opened DeviceDbLatest

  /** The node of every device stands there with the number that the last event about the device gave. */
  ghost predicate Numbered(events: seq<Event>, dev: map<string, Entry>) {
    forall d | Latest(events, d).Some? :: NodeOf(dev, Latest(events, d).value)
  }

  predicate NodeOf(dev: map<string, Entry>, u: Device) {
    u.name in dev && dev[u.name] == Node(u.devt)
  }

  // ----- One event -----

  /** Adding a device makes its node and touches no other name of a node. */
  lemma AddMakesNode(st: State, devpath: string, u: Device, ls: Readdir, isNode: string -> bool)
    requires Sound(st, isNode) && Proper(u, isNode)
    ensures var dev := AddDevice(st, devpath, u, ls).dev;
      && NodeOf(dev, u)
      && forall x | isNode(x) && x != u.name && !(Stored(st.records, devpath).Some? && x == Stored(st.records, devpath).value.name) ::
           (x in dev <==> x in st.dev) && (x in st.dev ==> dev[x] == st.dev[x])
  {
    var former, st2 := Stored(st.records, devpath), Stocked(st, devpath, u);
    var names := NamesToUpdate(u, former);
    StockedIsSound(st, devpath, u, isNode);
    NamesAreLinks(st, devpath, u, isNode);
    hide RecordsProper, IndexAgrees, Current, Stored, NamesToUpdate, UpdateLinks;
    UpdateLinksFrame(st2, devpath, u, names, ls, 0, isNode);
  }

  /** No name looked at again is that of a node, but for the node that the device gives up. */
  lemma NamesAreLinks(st: State, devpath: string, u: Device, isNode: string -> bool)
    requires Sound(st, isNode) && Proper(u, isNode)
    ensures forall x | isNode(x) && x in NamesToUpdate(u, Stored(st.records, devpath)) ::
      Stored(st.records, devpath).Some? && x == Stored(st.records, devpath).value.name && x != u.name
  {
    hide Load;
  }

  /** The removal of a stored device that is not ignored takes its node away exactly if the node has the
      number of the device, and no other name of a node. */
  lemma RemovalTakesNodeIff(st: State, devpath: string, kernel: string, devt: Devt, ls: Readdir, isNode: string -> bool)
    requires Sound(st, isNode) && Stored(st.records, devpath).Some? && !Kept(st, devpath, kernel, devt, false)
    ensures var u, dev := RemovedDevice(st.records, devpath, kernel, devt), RemoveDevice(st, devpath, kernel, devt, false, ls).dev;
      && u.name == Stored(st.records, devpath).value.name
      && (u.name in dev <==> u.name in st.dev && (StatDevt(st.dev, u.name).None? || (u.devt != Devt(0, 0) && StatDevt(st.dev, u.name).value != u.devt)))
      && forall x | isNode(x) && x != u.name :: (x in dev <==> x in st.dev) && (x in st.dev ==> dev[x] == st.dev[x])
  {
    var u := RemovedDevice(st.records, devpath, kernel, devt);
    var st1 := DbDelete(st, devpath, u);
    assert u.name == Stored(st.records, devpath).value.name && isNode(u.name) && forall s | s in u.symlinks :: !isNode(s);
    NodeRemoveFrame(st1, u);
    NodeGoesIff(st1, u);
    DroppedIsSound(st, devpath, kernel, devt, isNode);
    hide RecordsProper, IndexAgrees, Stored, NodeRemove, UpdateLinks, StatDevt;
    UpdateLinksFrame(NodeRemove(st1, u), devpath, u, u.symlinks, ls, 0, isNode);
  }

  lemma NodeGoesIff(st: State, u: Device)
    ensures u.name in NodeRemove(st, u).dev <==>
      u.name in st.dev && (StatDevt(st.dev, u.name).None? || (u.devt != Devt(0, 0) && StatDevt(st.dev, u.name).value != u.devt))
  {
  }

  lemma {:induction false} UnclaimedGoes(st: State, devpath: string, u: Device, names: seq<string>, ls: Readdir, k: nat, name: string)
    requires DevicesByName(st.index, name) == {} && (name in names || name !in st.dev)
    ensures name !in UpdateLinks(st, devpath, u, names, ls, k).dev
    decreases |names|
  {
    if names != [] {
      var st1 := UpdateLink(st, devpath, u, names[0], ls, k);
      UpdateLinkFrame(st, devpath, u, names[0], ls, k);
      assert names[0] == name ==> name !in st1.dev;
      hide UpdateLink;
      UnclaimedGoes(st1, devpath, u, names[1..], ls, k + 1, name);
    }
  }

  /** A device that comes again under another name gives up the node of its former one, if no two
      devices share a node name. */
  lemma FormerNodeGoes(st: State, devpath: string, u: Device, ls: Readdir, isNode: string -> bool)
    requires Sound(st, isNode) && Proper(u, isNode) && NodesDistinct(st.records)
    requires Stored(st.records, devpath).Some? && Stored(st.records, devpath).value.name != u.name
    ensures Stored(st.records, devpath).value.name !in AddDevice(st, devpath, u, ls).dev
  {
    var former, st2 := Stored(st.records, devpath), Stocked(st, devpath, u);
    var name := former.value.name;
    StockedIsSound(st, devpath, u, isNode);
    assert isNode(name) && name in NamesToUpdate(u, former);
    NobodyHas(st, st2, devpath, u, isNode);
    hide RecordsProper, IndexAgrees, Current, Stored, NamesToUpdate, UpdateLinks;
    UnclaimedGoes(st2, devpath, u, NamesToUpdate(u, former), ls, 0, name);
  }

  lemma NobodyHas(st: State, st2: State, devpath: string, u: Device, isNode: string -> bool)
    requires Sound(st, isNode) && Proper(u, isNode) && NodesDistinct(st.records)
    requires Stored(st.records, devpath).Some? && Stored(st.records, devpath).value.name != u.name
    requires IndexAgrees(st2.records, st2.index)
    requires forall d | d != devpath :: Stored(st2.records, d) == Stored(st.records, d)
    requires Stored(st2.records, devpath).Some?
    requires Stored(st2.records, devpath).value.name == u.name && Stored(st2.records, devpath).value.symlinks == u.symlinks
    ensures DevicesByName(st2.index, Stored(st.records, devpath).value.name) == {}
  {
    hide Load;
    var name := Stored(st.records, devpath).value.name;
    forall d
      ensures (name, d) !in st2.index
    {
      if d != devpath && Stored(st.records, d).Some? {
        assert Stored(st.records, d).value.name != name;
      }
    }
  }

  /** A link is made unless the node of another device stands in its place. */
  lemma LinkIsMadeIff(dev: map<string, Entry>, node: string, slink: string)
    ensures var r := NodeSymlink(dev, node, slink);
      && (slink in r && r[slink] == Link(node) <==>
            !(slink in dev && dev[slink].Node? && node in dev && dev[node] != dev[slink]))
      && forall x | x != slink :: (x in r <==> x in dev) && (x in dev ==> r[x] == dev[x])
  {
  }

  // ----- Every run -----

  /** In every run in which no two devices share a node name and no removal takes another device's node,
      every device that is there has its node, with its number. */
  lemma {:induction false} NodesFollowEvents(events: seq<Event>, isNode: string -> bool)
    requires forall i | 0 <= i < |events| :: Legal(events[i], isNode) && NamesFree(Run(events[..i]), events[i])
    ensures Numbered(events, Run(events).dev)
  {
    if events == [] {
    } else {
      var n := |events| - 1;
      var front, ev := events[..n], events[n];
      forall i | 0 <= i < n
        ensures Legal(front[i], isNode) && NamesFree(Run(front[..i]), front[i])
      {
        assert front[..i] == events[..i];
      }
      assert Legal(ev, isNode) && NamesFree(Run(front), ev);
      hide Legal, NamesFree, Numbered, Run, Latest;
      NodesFollowEvents(front, isNode);
      RunIsSound(front, isNode);
      NoDanglingLinks(front, isNode);
      LegalIsReadable(front, isNode);
      NextIsNumbered(events, isNode);
    }
  }

  lemma NextIsNumbered(events: seq<Event>, isNode: string -> bool)
    requires events != []
    requires var front := events[..|events|-1];
      && Sound(Run(front), isNode) && NodesDistinct(Run(front).records) && Numbered(front, Run(front).dev)
      && (forall i | 0 <= i < |front| :: Readable(front[i]))
      && Legal(events[|events|-1], isNode) && NamesFree(Run(front), events[|events|-1])
    ensures Numbered(events, Run(events).dev)
  {
    var n := |events| - 1;
    var front, ev, st := events[..n], events[n], Run(events[..n]);
    assert Run(events) == Next(st, ev);
    hide Run;
    forall d
      ensures Latest(front, d).Some? <==> Stored(st.records, d).Some?
      ensures Latest(front, d).Some? ==> Stored(st.records, d).value.name == Latest(front, d).value.name
    {
      StoredIsLatest(front, d);
    }
    match ev {
      case Add(devpath, u, ignored, ls) =>
        if !ignored && u.name != "" {
          AddIsNumbered(events, st, isNode);
        } else {
          assert forall d :: Latest(events, d) == Latest(front, d);
          hide Latest;
        }
      case Remove(devpath, kernel, devt, ignored, ls) =>
        RemoveIsNumbered(events, st, isNode);
    }
  }

  lemma StoredIsLatest(events: seq<Event>, d: string)
    requires forall i | 0 <= i < |events| :: Readable(events[i])
    ensures Latest(events, d).Some? <==> Stored(Run(events).records, d).Some?
    ensures Latest(events, d).Some? ==> Stored(Run(events).records, d).value.name == Latest(events, d).value.name
  {
    RecordsTellTheLatest(events, d);
    LatestIsWellFormed(events, d);
    hide Latest, Run, Load, Save, WellFormed;
    if Latest(events, d).Some? {
      LoadOfSave(Latest(events, d).value);
    }
  }

  ghost predicate KnownAs(events: seq<Event>, records: map<string, DbFile>) {
    forall d ::
      && (Latest(events, d).Some? <==> Stored(records, d).Some?)
      && (Latest(events, d).Some? ==> Stored(records, d).value.name == Latest(events, d).value.name)
  }

  lemma AddIsNumbered(events: seq<Event>, st: State, isNode: string -> bool)
    requires events != [] && events[|events|-1].Add? && !events[|events|-1].ignored && events[|events|-1].device.name != ""
    requires Sound(st, isNode) && NodesDistinct(st.records) && Numbered(events[..|events|-1], st.dev)
    requires KnownAs(events[..|events|-1], st.records) && Legal(events[|events|-1], isNode) && NamesFree(st, events[|events|-1])
    ensures Numbered(events, Next(st, events[|events|-1]).dev)
  {
    var n := |events| - 1;
    var front, ev := events[..n], events[n];
    AddMakesNode(st, ev.devpath, ev.device, ev.ls, isNode);
    var dev := AddDevice(st, ev.devpath, ev.device, ev.ls).dev;
    hide AddDevice, Load;
    forall d | Latest(events, d).Some?
      ensures NodeOf(dev, Latest(events, d).value)
    {
      if d != ev.devpath {
        assert Latest(events, d) == Latest(front, d);
        var name := Latest(front, d).value.name;
        assert Stored(st.records, d).Some? && Stored(st.records, d).value.name == name && isNode(name);
        assert name != ev.device.name;
        assert NodeOf(st.dev, Latest(front, d).value);
      }
    }
  }

  lemma RemoveIsNumbered(events: seq<Event>, st: State, isNode: string -> bool)
    requires events != [] && events[|events|-1].Remove?
    requires Sound(st, isNode) && NodesDistinct(st.records) && Numbered(events[..|events|-1], st.dev)
    requires KnownAs(events[..|events|-1], st.records) && NamesFree(st, events[|events|-1])
    ensures Numbered(events, Next(st, events[|events|-1]).dev)
  {
    var n := |events| - 1;
    var front, ev := events[..n], events[n];
    var dev := RemoveDevice(st, ev.devpath, ev.kernel, ev.devt, ev.ignored, ev.ls).dev;
    RemovalLeavesOthers(st, ev, isNode);
    hide RemoveDevice, Load, TakesAway;
    forall d | Latest(events, d).Some?
      ensures NodeOf(dev, Latest(events, d).value)
    {
      assert d != ev.devpath && Latest(events, d) == Latest(front, d);
      var name := Latest(front, d).value.name;
      assert Stored(st.records, d).Some? && Stored(st.records, d).value.name == name;
      assert NodeOf(st.dev, Latest(front, d).value);
    }
  }

  /** A removal leaves the nodes of all other stored devices as they are. */
  lemma RemovalLeavesOthers(st: State, ev: Event, isNode: string -> bool)
    requires ev.Remove? && Sound(st, isNode) && NodesDistinct(st.records) && NamesFree(st, ev)
    ensures var dev := RemoveDevice(st, ev.devpath, ev.kernel, ev.devt, ev.ignored, ev.ls).dev;
      forall d | d != ev.devpath && Stored(st.records, d).Some? :: var x := Stored(st.records, d).value.name;
        (x in dev <==> x in st.dev) && (x in st.dev ==> dev[x] == st.dev[x])
  {
    hide Load, IndexAgrees, UpdateLinks, StatDevt;
    if Stored(st.records, ev.devpath).None? {
      StrangerRemoval(st, ev.devpath, ev.kernel, ev.devt, ev.ignored, ev.ls);
      hide RemoveDevice;
    } else if Kept(st, ev.devpath, ev.kernel, ev.devt, ev.ignored) {
      hide TakesAway;
    } else {
      RemovalTakesNodeIff(st, ev.devpath, ev.kernel, ev.devt, ev.ls, isNode);
      hide RemoveDevice, TakesAway, RemovedDevice;
    }
  }
}
