/** What the database says about a device: what the last event about it said. */
module DeviceDbLatest {
  import opened CStrings
  import opened Decimal
  import opened Records
  import opened DeviceDb
  import opened DeviceDbProofs

  /** The device as the last event about the device path left it, read off the events alone.
      Events that are ignored, or leave the device without a name, do not count, except that a
      removal counts even if it is ignored. */
  function Latest(events: seq<Event>, d: string): Option<Device> {
    if events == [] then None
    else
      var before := Latest(events[..|events|-1], d);
      match events[|events|-1]
      case Add(devpath, u, ignored, _) => if devpath != d || ignored || u.name == "" then before else Some(u)
      case Remove(devpath, _, _, _, _) => if devpath != d then before else None
  }

  lemma {:induction false} LinksLeaveRecords(st: State, devpath: string, u: Device, names: seq<string>, ls: Readdir, k: nat)
    ensures UpdateLinks(st, devpath, u, names, ls, k).records == st.records
    decreases |names|
  {
    if names != [] {
      LinksLeaveRecords(UpdateLink(st, devpath, u, names[0], ls, k), devpath, u, names[1..], ls, k + 1);
    }
  }

  lemma AddStores(st: State, devpath: string, u: Device, ls: Readdir, d: string)
    ensures Stored(AddDevice(st, devpath, u, ls).records, d) == if d == devpath then Load(Save(u)) else Stored(st.records, d)
  {
    hide Load, Save, UpdateLinks, NamesToUpdate;
    var former := Stored(st.records, devpath);
    var st1 := if former.Some? then DbDelete(st, devpath, former.value) else st;
    LinksLeaveRecords(DbAdd(NodeAdd(st1, u), devpath, u), devpath, u, NamesToUpdate(u, former), ls, 0);
  }

  lemma RemoveForgets(st: State, devpath: string, kernel: string, devt: Devt, ignored: bool, ls: Readdir, d: string)
    ensures Stored(RemoveDevice(st, devpath, kernel, devt, ignored, ls).records, d)
      == if d == devpath then None else Stored(st.records, d)
  {
    hide Load, UpdateLinks;
    var u := RemovedDevice(st.records, devpath, kernel, devt);
    var st1 := if Stored(st.records, devpath).Some? then DbDelete(st, devpath, u) else st;
    LinksLeaveRecords(NodeRemove(st1, u), devpath, u, u.symlinks, ls, 0);
  }

  /** Over every sequence of events, what is stored is what the last event about the device said,
      as far as storing it keeps it. */
  lemma {:induction false} RecordsTellTheLatest(events: seq<Event>, d: string)
    ensures Stored(Run(events).records, d) ==
      if Latest(events, d).None? then None else Load(Save(Latest(events, d).value))
  {
    hide Load, Save, AddDevice, RemoveDevice, Stored;
    if events != [] {
      var st := Run(events[..|events|-1]);
      RecordsTellTheLatest(events[..|events|-1], d);
      match events[|events|-1]
      case Add(devpath, u, ignored, ls) => AddStores(st, devpath, u, ls, d);
      case Remove(devpath, kernel, devt, ignored, ls) => RemoveForgets(st, devpath, kernel, devt, ignored, ls, d);
    } else {
      EmptyStoresNothing(d);
    }
  }

  lemma EmptyStoresNothing(d: string)
    ensures Stored(INIT.records, d) == None
  {
  }

  lemma {:induction false} LatestIsWellFormed(events: seq<Event>, d: string)
    requires forall i | 0 <= i < |events| :: Readable(events[i])
    ensures Latest(events, d).Some? ==> WellFormed(Latest(events, d).value)
  {
    hide WellFormed;
    if events != [] {
      LatestIsWellFormed(events[..|events|-1], d);
      assert Readable(events[|events|-1]);
    }
  }

  /** The last event about the device left it with the link s. */
  predicate Declares(events: seq<Event>, d: string, s: string) {
    Latest(events, d).Some? && s in Latest(events, d).value.symlinks
  }

  /** A name belongs to a device exactly if the last event about it gave it that name, and the
      index and the claims of every run follow. */
  lemma NamesFollowEvents(events: seq<Event>, n: string, d: string)
    requires forall i | 0 <= i < |events| :: Readable(events[i])
    ensures (n, d) in Run(events).index <==> Latest(events, d).Some? && n in Names(Latest(events, d).value)
    ensures Claims(Run(events).records, n, d) <==> Declares(events, d, n)
    ensures Declares(events, d, n) ==>
      var v, u := Stored(Run(events).records, d).value, Latest(events, d).value;
      v.name == u.name && v.priority == ReadBack(u.priority)
  {
    IndexAlwaysAgrees(events);
    RecordsTellTheLatest(events, d);
    LatestIsWellFormed(events, d);
    hide Latest, Load, Save;
    if Latest(events, d).Some? {
      LoadOfSave(Latest(events, d).value);
    }
  }

  lemma {:induction false} LatestIsRanked(events: seq<Event>, d: string)
    requires forall i | 0 <= i < |events| :: RankedEvent(events[i])
    ensures Latest(events, d).Some? ==> Ranked(Latest(events, d).value)
  {
    hide Ranked;
    if events != [] {
      LatestIsRanked(events[..|events|-1], d);
      assert RankedEvent(events[|events|-1]);
    }
  }

  /** The link s is as the events ask for: it leads to a device that has it, with the highest
      priority among those that do, and is absent if none does. */
  ghost predicate AsDeclared(events: seq<Event>, dev: map<string, Entry>, s: string) {
    if exists d :: Declares(events, d, s)
    then s in dev && dev[s].Link? && exists d :: TopDeclares(events, d, s) && dev[s].target == Latest(events, d).value.name
    else s !in dev
  }

  ghost predicate TopDeclares(events: seq<Event>, d: string, s: string) {
    && Declares(events, d, s)
    && forall e | Declares(events, e, s) :: Latest(events, e).value.priority <= Latest(events, d).value.priority
  }

  lemma LegalIsReadable(events: seq<Event>, isNode: string -> bool)
    requires forall i | 0 <= i < |events| :: Legal(events[i], isNode)
    ensures forall i | 0 <= i < |events| :: Readable(events[i])
  {
    hide WellFormed, Lists;
    forall i | 0 <= i < |events|
      ensures Readable(events[i])
    {
      assert Legal(events[i], isNode);
    }
  }

  /** After every sequence of tidy events whose priorities are read back as they were stored, every
      link is as the last event about each device asks for. */
  lemma LinksFollowEvents(events: seq<Event>, isNode: string -> bool, s: string)
    requires forall i | 0 <= i < |events| :: Legal(events[i], isNode) && Tidy(Run(events[..i]), events[i], isNode)
    requires !isNode(s) && forall i | 0 <= i < |events| :: RankedEvent(events[i])
    ensures AsDeclared(events, Run(events).dev, s)
  {
    LegalIsReadable(events, isNode);
    hide Legal, Readable, Tidy, Run, Latest, Stored, RankedEvent;
    var st := Run(events);
    LinksAlwaysRight(events, isNode, true);
    assert LinkRight(st.records, st.dev, s, true);
    forall d
      ensures Claims(st.records, s, d) <==> Declares(events, d, s)
      ensures Declares(events, d, s) ==>
        Stored(st.records, d).value.name == Latest(events, d).value.name
        && Stored(st.records, d).value.priority == Latest(events, d).value.priority
    {
      NamesFollowEvents(events, s, d);
      LatestIsRanked(events, d);
    }
    hide Claims, Declares;
    if exists d :: Declares(events, d, s) {
      var d :| Declares(events, d, s);
      assert Claims(st.records, s, d);
      var w :| LeadsTo(st.records, st.dev, s, w, true);
      assert TopDeclares(events, w, s);
    }
  }
}
