/** The database, index, link and event procedures on a mutable directory tree.
    The tree holds the records, the index and /dev; each procedure is proved to compute the function
    of module DeviceDb that goes with it. */
module DeviceTree {
  import opened CStrings
  import opened Records
  import opened DeviceDb

  lemma {:induction false} UpdateLinksAppend(st: State, devpath: string, u: Device, a: seq<string>, b: seq<string>, ls: Readdir, k: nat)
    ensures UpdateLinks(st, devpath, u, a + b, ls, k) ==
              UpdateLinks(UpdateLinks(st, devpath, u, a, ls, k), devpath, u, b, ls, k + |a|)
    decreases |a|
  {
    hide DeviceDb.UpdateLink;
    if a == [] {
      assert a + b == b;
    } else {
      assert (a + b)[1..] == a[1..] + b;
      UpdateLinksAppend(DeviceDb.UpdateLink(st, devpath, u, a[0], ls, k), devpath, u, a[1..], b, ls, k + 1);
    }
  }

  lemma UpdateLinksCons(st: State, devpath: string, u: Device, name: string, rest: seq<string>, ls: Readdir, k: nat)
    ensures UpdateLinks(st, devpath, u, [name] + rest, ls, k) ==
              UpdateLinks(DeviceDb.UpdateLink(st, devpath, u, name, ls, k), devpath, u, rest, ls, k + 1)
  {
    hide DeviceDb.UpdateLink;
    assert ([name] + rest)[1..] == rest;
  }

  lemma NoPairs(devpath: string)
    ensures Pairs({}, devpath) == {}
  {
  }

  lemma PairsAdd(names: set<string>, name: string, devpath: string)
    ensures Pairs(names + {name}, devpath) == Pairs(names, devpath) + {(name, devpath)}
  {
  }

  function Elements(names: seq<string>): set<string> {
    set s | s in names
  }

  lemma SetOfMore(names: seq<string>, i: nat)
    requires i < |names|
    ensures Elements(names[..i+1]) == Elements(names[..i]) + {names[i]}
  {
    assert names[..i+1] == names[..i] + [names[i]];
  }

  lemma EntriesSplit(u: Device, devpath: string)
    ensures Entries(u, devpath) == Pairs(Elements(u.symlinks), devpath) + {(u.name, devpath)}
  {
    PairsAdd(Elements(u.symlinks), u.name, devpath);
    assert Elements(u.symlinks) + {u.name} == Names(u);
  }

  lemma UpdateNone(st: State, devpath: string, u: Device, ls: Readdir, k: nat)
    ensures UpdateLinks(st, devpath, u, [], ls, k) == st
  {
  }

  /** The current links, then those given up, then the former node name. */
  lemma UpdateInParts(st: State, devpath: string, u: Device, v: Device, ls: Readdir)
    ensures var others := Without(v.symlinks, u.symlinks);
      var st1 := UpdateLinks(UpdateLinks(st, devpath, u, u.symlinks, ls, 0), devpath, u, others, ls, |u.symlinks|);
      UpdateLinks(st, devpath, u, NamesToUpdate(u, Some(v)), ls, 0) ==
        if u.name != v.name then DeviceDb.UpdateLink(st1, devpath, u, v.name, ls, |u.symlinks| + |others|) else st1
  {
    hide UpdateLinks, Without, DeviceDb.UpdateLink;
    var others := Without(v.symlinks, u.symlinks);
    var tail := if u.name != v.name then [v.name] else [];
    UpdateLinksAppend(st, devpath, u, u.symlinks, others, ls, 0);
    UpdateLinksAppend(st, devpath, u, u.symlinks + others, tail, ls, 0);
    var st1 := UpdateLinks(UpdateLinks(st, devpath, u, u.symlinks, ls, 0), devpath, u, others, ls, |u.symlinks|);
    var k := |u.symlinks| + |others|;
    if u.name != v.name {
      UpdateLinksCons(st1, devpath, u, v.name, [], ls, k);
      UpdateNone(DeviceDb.UpdateLink(st1, devpath, u, v.name, ls, k), devpath, u, ls, k + 1);
      assert [v.name] + [] == tail;
    } else {
      UpdateNone(st1, devpath, u, ls, k);
    }
  }

  lemma WithoutStep(names: seq<string>, i: nat, others: seq<string>)
    requires i < |names|
    ensures Without(names[i..], others) ==
              if names[i] in others then Without(names[i+1..], others) else [names[i]] + Without(names[i+1..], others)
  {
    assert names[i..][1..] == names[i+1..];
  }

  lemma WithoutNone(names: seq<string>, others: seq<string>)
    requires names == []
    ensures Without(names, others) == []
  {
  }

  method Contains(names: seq<string>, name: string) returns (found: bool)
    ensures found <==> name in names
  {
    for i := 0 to |names|
      invariant name !in names[..i]
    {
      if names[i] == name {
        return true;
      }
    }
    return false;
  }

  class Tree {
    var records: map<string, DbFile>
    var index: set<(string, string)>
    var dev: map<string, Entry>

    ghost function Abs(): State
      reads this
    {
      State(records, index, dev)
    }

    constructor ()
      ensures Abs() == INIT
    {
      records, index, dev := map[], {}, map[];
    }

    method NameIndex(devpath: string, name: string, add: bool)
      modifies this`index
      ensures index == if add then old(index) + {(name, devpath)} else old(index) - {(name, devpath)}
    {
      if add {
        index := index + {(name, devpath)};
      } else {
        index := index - {(name, devpath)};
      }
    }

    /** Add the names to the index, or take them out. */
    method NamesIndex(devpath: string, names: seq<string>, add: bool)
      modifies this`index
      ensures var pairs := Pairs(Elements(names), devpath);
        index == if add then old(index) + pairs else old(index) - pairs
    {
      ghost var done: set<string> := {};
      NoPairs(devpath);
      hide Pairs;
      for i := 0 to |names|
        invariant done == Elements(names[..i])
        invariant index == if add then old(index) + Pairs(done, devpath) else old(index) - Pairs(done, devpath)
      {
        NameIndex(devpath, names[i], add);
        SetOfMore(names, i);
        PairsAdd(done, names[i], devpath);
        done := done + {names[i]};
      }
      assert names[..|names|] == names;
    }

    method DbAddDevice(devpath: string, u: Device)
      modifies this
      ensures Abs() == DbAdd(old(Abs()), devpath, u)
    {
      records := records - {devpath};
      if NothingInteresting(u) {
        records := records[devpath := NameLink(u.name)];
        NoPairs(devpath);
      } else {
        records := records[devpath := Text(Join(Lines(u)))];
        NamesIndex(devpath, u.symlinks, true);
      }
      NameIndex(devpath, u.name, true);
      EntriesSplit(u, devpath);
      assert records == old(records)[devpath := Save(u)];
    }

    method DbGetDevice(devpath: string) returns (r: Option<Device>)
      ensures r == Stored(records, devpath)
    {
      if devpath !in records {
        return None;
      }
      match records[devpath] {
        case NameLink(target) =>
          r := if target == "" then None else Some(BLANK.(name := target));
        case Text(content) =>
          var u := ParseBuffer(content);
          r := if u.name == "" then None else Some(u);
      }
    }

    method DbDeleteDevice(devpath: string, u: Device)
      modifies this
      ensures Abs() == DbDelete(old(Abs()), devpath, u)
    {
      records := records - {devpath};
      NameIndex(devpath, u.name, false);
      NamesIndex(devpath, u.symlinks, false);
      EntriesSplit(u, devpath);
    }

    /** Find the device with the highest priority and point the link at its node. */
    method UpdateLink(devpath: string, u: Device, name: string, ls: Readdir, k: nat)
      modifies this`dev
      ensures Abs() == DeviceDb.UpdateLink(old(Abs()), devpath, u, name, ls, k)
    {
      var devices := DevicesByName(index, name);
      if devices == {} {
        dev := dev - {name};
        return;
      }
      var order := ls(k, devices);
      var target: Option<string> := None;
      var priority := 0;
      for i := 0 to |order|
        invariant dev == old(dev)
        invariant Pick(records, devpath, u, name, order[..i]) ==
                    if target.Some? then Some(Claim(target.value, priority)) else None
      {
        assert order[..i+1][..i] == order[..i];
        if order[i] == devpath {
          if u.name != name && (target.None? || u.priority >= priority) {
            priority := u.priority;
            target := Some(u.name);
          }
          continue;
        }
        var udevDb := DbGetDevice(order[i]);
        if udevDb.Some? && udevDb.value.name != name && (target.None? || udevDb.value.priority > priority) {
          priority := udevDb.value.priority;
          target := Some(udevDb.value.name);
        }
      }
      assert order[..|order|] == order;
      if target.Some? {
        CreateSymlink(target.value, name);
      }
    }

    method CreateSymlink(node: string, slink: string)
      modifies this`dev
      ensures dev == NodeSymlink(old(dev), node, slink)
    {
      if slink in dev {
        match dev[slink] {
          case Node(devt) =>
            if node in dev {
              if dev[node] != dev[slink] {
                return;
              }
            }
          case Link(target) =>
            if target == node {
              assert dev[slink := Link(node)] == dev;
              return;
            }
        }
      }
      dev := dev[slink := Link(node)];
    }

    method UpdateCurrentLinks(devpath: string, u: Device, ls: Readdir)
      modifies this`dev
      ensures Abs() == UpdateLinks(old(Abs()), devpath, u, u.symlinks, ls, 0)
    {
      for i := 0 to |u.symlinks|
        invariant UpdateLinks(old(Abs()), devpath, u, u.symlinks, ls, 0) == UpdateLinks(Abs(), devpath, u, u.symlinks[i..], ls, i)
      {
        UpdateLink(devpath, u, u.symlinks[i], ls, i);
        assert u.symlinks[i..][1..] == u.symlinks[i+1..];
      }
    }

    /** Update the links the device no longer has; k counts the links updated so far. */
    method UpdateGivenUpLinks(devpath: string, u: Device, formerLinks: seq<string>, ls: Readdir, k0: nat) returns (k: nat)
      modifies this`dev
      ensures Abs() == UpdateLinks(old(Abs()), devpath, u, Without(formerLinks, u.symlinks), ls, k0)
      ensures k == k0 + |Without(formerLinks, u.symlinks)|
    {
      hide Without, UpdateLinks;
      k := k0;
      assert formerLinks[0..] == formerLinks;
      for i := 0 to |formerLinks|
        invariant k + |Without(formerLinks[i..], u.symlinks)| == k0 + |Without(formerLinks, u.symlinks)|
        invariant UpdateLinks(old(Abs()), devpath, u, Without(formerLinks, u.symlinks), ls, k0) ==
                    UpdateLinks(Abs(), devpath, u, Without(formerLinks[i..], u.symlinks), ls, k)
      {
        var found := Contains(u.symlinks, formerLinks[i]);
        WithoutStep(formerLinks, i, u.symlinks);
        if !found {
          UpdateLinksCons(Abs(), devpath, u, formerLinks[i], Without(formerLinks[i+1..], u.symlinks), ls, k);
          UpdateLink(devpath, u, formerLinks[i], ls, k);
          k := k + 1;
        }
      }
      WithoutNone(formerLinks[|formerLinks|..], u.symlinks);
      UpdateNone(Abs(), devpath, u, ls, k);
    }

    method UpdateSymlinks(devpath: string, u: Device, former: Option<Device>, ls: Readdir)
      modifies this`dev
      ensures Abs() == UpdateLinks(old(Abs()), devpath, u, NamesToUpdate(u, former), ls, 0)
    {
      hide UpdateLinks, Without, DeviceDb.UpdateLink;
      UpdateCurrentLinks(devpath, u, ls);
      if former.Some? {
        var v := former.value;
        hide NamesToUpdate;
        UpdateInParts(old(Abs()), devpath, u, v, ls);
        var k := UpdateGivenUpLinks(devpath, u, v.symlinks, ls, |u.symlinks|);
        if u.name != v.name {
          UpdateLink(devpath, u, v.name, ls, k);
        }
      }
    }

    method RemoveNode(u: Device)
      modifies this`dev
      ensures Abs() == NodeRemove(old(Abs()), u)
    {
      var stats := StatDevt(dev, u.name);
      if stats.None? {
        return;
      }
      if u.devt != Devt(0, 0) && stats.value != u.devt {
        return;
      }
      dev := dev - {u.name};
    }

    method DeviceEvent(ev: Event)
      modifies this
      ensures Abs() == Next(old(Abs()), ev)
    {
      match ev {
        case Add(devpath, u, ignored, ls) =>
          if ignored || u.name == "" {
            return;
          }
          var former := DbGetDevice(devpath);
          if former.Some? {
            DbDeleteDevice(devpath, former.value);
          }
          dev := dev[u.name := Node(u.devt)];
          DbAddDevice(devpath, u);
          UpdateSymlinks(devpath, u, former, ls);
        case Remove(devpath, kernel, devt, ignored, ls) =>
          var u := BLANK.(name := kernel, devt := devt);
          var stored := DbGetDevice(devpath);
          if stored.Some? {
            u := if records[devpath].NameLink? then stored.value.(devt := devt) else stored.value;
            DbDeleteDevice(devpath, u);
          }
          if ignored || u.ignoreRemove {
            return;
          }
          RemoveNode(u);
          UpdateSymlinks(devpath, u, None, ls);
      }
    }
  }
}
