/** What every run of device events keeps: the index agrees with the records, every link
    leads to the best claimant of its name, and no link dangles. */
module DeviceDbProofs {
  import opened CStrings
  import opened Decimal
  import opened Records
  import opened DeviceDb

  // ----- The winner of a name -----

  /** Claim c is made by device d of the list. */
  ghost predicate MadeBy(records: map<string, DbFile>, devpath: string, u: Device, name: string, order: seq<string>, d: string, c: Claim) {
    d in order && ClaimOf(records, devpath, u, name, d) == Some(c)
  }

  /** The fold finds a claim of maximal priority, our own if that has it, and none only if
      nobody claims the name. */
  lemma {:induction false} PickIsBest(records: map<string, DbFile>, devpath: string, u: Device, name: string, order: seq<string>)
    requires forall i, j | 0 <= i < j < |order| :: order[i] != order[j]
    ensures var best := Pick(records, devpath, u, name, order);
      && (best.None? ==> forall d | d in order :: ClaimOf(records, devpath, u, name, d).None?)
      && (best.Some? ==>
            && (exists d :: MadeBy(records, devpath, u, name, order, d, best.value))
            && (forall d, c | MadeBy(records, devpath, u, name, order, d, c) :: c.priority <= best.value.priority)
            && (forall c | MadeBy(records, devpath, u, name, order, devpath, c) && c.priority == best.value.priority ::
                  best.value == c))
    decreases |order|
  {
    hide ClaimOf;
    if order == [] {
    } else {
      var n := |order| - 1;
      var front, last := order[..n], order[n];
      PickIsBest(records, devpath, u, name, front);
      assert order == front + [last];
      var before, best := Pick(records, devpath, u, name, front), Pick(records, devpath, u, name, order);
      if best.Some? {
        if best == before {
          var d :| MadeBy(records, devpath, u, name, front, d, best.value);
          assert MadeBy(records, devpath, u, name, order, d, best.value);
        } else {
          assert MadeBy(records, devpath, u, name, order, last, best.value);
        }
        forall d, c | MadeBy(records, devpath, u, name, order, d, c)
          ensures c.priority <= best.value.priority
        {
          if d != last {
            assert MadeBy(records, devpath, u, name, front, d, c);
          }
        }
        forall c | MadeBy(records, devpath, u, name, order, devpath, c) && c.priority == best.value.priority
          ensures best.value == c
        {
          if last != devpath {
            assert MadeBy(records, devpath, u, name, front, devpath, c);
          }
        }
      }
    }
  }

  // ----- The invariants -----

  /** The names of nodes and the names of links are told apart by isNode. */
  ghost predicate Proper(u: Device, isNode: string -> bool) {
    WellFormed(u) && isNode(u.name) && forall s | s in u.symlinks :: !isNode(s)
  }

  ghost predicate RecordsProper(records: map<string, DbFile>, isNode: string -> bool) {
    forall d | d in records :: Stored(records, d).Some? &&
      var v := Stored(records, d).value; v.name != "" && isNode(v.name) && forall s | s in v.symlinks :: !isNode(s)
  }

  /** The index holds exactly the names of the stored devices. */
  ghost predicate IndexAgrees(records: map<string, DbFile>, index: set<(string, string)>) {
    forall n, d :: (n, d) in index <==> Stored(records, d).Some? && n in Names(Stored(records, d).value)
  }

  predicate Claims(records: map<string, DbFile>, name: string, d: string) {
    Stored(records, d).Some? && name in Stored(records, d).value.symlinks
  }

  /** Device d claims the name with maximal priority. */
  ghost predicate Wins(records: map<string, DbFile>, name: string, d: string) {
    && Claims(records, name, d)
    && forall e | Claims(records, name, e) :: Stored(records, e).value.priority <= Stored(records, d).value.priority
  }

  ghost predicate Claimed(records: map<string, DbFile>, name: string) {
    exists d :: Claims(records, name, d)
  }

  /** The link is absent if nobody claims it, and else leads to the node of a claimant: of one
      with maximal priority, if the best is asked for. */
  ghost predicate LinkRight(records: map<string, DbFile>, dev: map<string, Entry>, name: string, best: bool) {
    if Claimed(records, name)
    then name in dev && dev[name].Link? && exists d :: LeadsTo(records, dev, name, d, best)
    else name !in dev
  }

  ghost predicate LeadsTo(records: map<string, DbFile>, dev: map<string, Entry>, name: string, d: string, best: bool)
    requires name in dev && dev[name].Link?
  {
    && (if best then Wins(records, name, d) else Claims(records, name, d))
    && dev[name].target == Stored(records, d).value.name
  }

  ghost predicate LinksRight(records: map<string, DbFile>, dev: map<string, Entry>, isNode: string -> bool, best: bool) {
    forall name | !isNode(name) :: LinkRight(records, dev, name, best)
  }

  ghost predicate Legal(ev: Event, isNode: string -> bool) {
    Lists(ev.ls) && (ev.Add? ==> ev.ignored || ev.device.name == "" || Proper(ev.device, isNode))
  }

  /** The priority of a device that claims links is the one its record will be read with. */
  predicate Ranked(u: Device) {
    u.symlinks == [] || ReadBack(u.priority) == u.priority
  }

  predicate RankedEvent(ev: Event) {
    ev.Add? && !ev.ignored && ev.device.name != "" ==> Ranked(ev.device)
  }

  // ----- The index -----

  lemma SavedIsLoaded(records: map<string, DbFile>, devpath: string, u: Device)
    requires WellFormed(u)
    ensures var r := Stored(records[devpath := Save(u)], devpath);
      && r.Some? && r.value.name == u.name && r.value.symlinks == u.symlinks
      && (u.symlinks != [] ==> r.value.priority == ReadBack(u.priority))
  {
    LoadOfSave(u);
  }

  lemma OthersAreKept(records: map<string, DbFile>, devpath: string, file: DbFile)
    ensures forall d | d != devpath :: Stored(records[devpath := file], d) == Stored(records, d)
    ensures forall d | d != devpath :: Stored(records - {devpath}, d) == Stored(records, d)
    ensures Stored(records - {devpath}, devpath) == None
  {
  }

  lemma DeleteKeepsIndex(st: State, devpath: string, u: Device)
    requires IndexAgrees(st.records, st.index)
    requires Stored(st.records, devpath).Some? && Names(u) == Names(Stored(st.records, devpath).value)
    ensures var r := DbDelete(st, devpath, u); IndexAgrees(r.records, r.index)
  {
  }

  lemma AddKeepsIndex(st: State, devpath: string, u: Device)
    requires IndexAgrees(st.records, st.index) && Stored(st.records, devpath).None? && WellFormed(u)
    ensures var r := DbAdd(st, devpath, u); IndexAgrees(r.records, r.index)
  {
    var r := DbAdd(st, devpath, u);
    SavedIsLoaded(st.records, devpath, u);
    OthersAreKept(st.records, devpath, Save(u));
    var stored := Stored(r.records, devpath).value;
    assert Names(stored) == Names(u);
    hide Load, Names, Save, WellFormed;
    forall n, d
      ensures (n, d) in r.index <==> Stored(r.records, d).Some? && n in Names(Stored(r.records, d).value)
    {
      assert (n, d) in Entries(u, devpath) <==> d == devpath && n in Names(u);
    }
  }

  /** A rename leaves the index behind: it still agrees only if nothing was renamed. */
  lemma RenameForgetsIndex(st: State, devpathOld: string, devpath: string)
    requires IndexAgrees(st.records, st.index)
    requires forall d | d in st.records :: Stored(st.records, d).Some?
    ensures var r := DbRename(st, devpathOld, devpath);
      IndexAgrees(r.records, r.index) <==> devpathOld !in st.records || devpathOld == devpath
  {
    var r := DbRename(st, devpathOld, devpath);
    if devpathOld in st.records {
      if devpathOld == devpath {
        assert r.records == st.records;
      } else {
        var name := Stored(st.records, devpathOld).value.name;
        assert (name, devpathOld) in r.index;
        assert Stored(r.records, devpathOld).None?;
      }
    }
  }

  // ----- The links -----

  /** The record of the handled device, if there is one, says what the event says. */
  ghost predicate Current(records: map<string, DbFile>, devpath: string, u: Device, name: string, best: bool) {
    Claims(records, name, devpath) ==>
      var v := Stored(records, devpath).value; v.name == u.name && (best ==> v.priority == u.priority)
  }

  lemma ClaimantsAreListed(st: State, name: string, isNode: string -> bool, order: seq<string>)
    requires IndexAgrees(st.records, st.index) && RecordsProper(st.records, isNode) && !isNode(name)
    requires Permutes(order, DevicesByName(st.index, name))
    ensures forall d :: d in order <==> Claims(st.records, name, d)
  {
    hide Load;
    forall d
      ensures d in order <==> Claims(st.records, name, d)
    {
      assert d in DevicesByName(st.index, name) <==> (name, d) in st.index;
    }
  }

  /** Updating one link makes it right and touches no other name. */
  lemma UpdateLinkIsRight(st: State, devpath: string, u: Device, name: string, ls: Readdir, k: nat, isNode: string -> bool, best: bool)
    requires IndexAgrees(st.records, st.index) && RecordsProper(st.records, isNode) && Lists(ls)
    requires !isNode(name) && isNode(u.name) && Current(st.records, devpath, u, name, best)
    requires name in st.dev ==> st.dev[name].Link?
    ensures var r := UpdateLink(st, devpath, u, name, ls, k);
      && r.records == st.records && r.index == st.index
      && LinkRight(r.records, r.dev, name, best)
      && (best && Wins(st.records, name, devpath) ==> r.dev[name] == Link(u.name))
  {
    hide Load, IndexAgrees;
    var devices := DevicesByName(st.index, name);
    var order := ls(k, devices);
    assert Permutes(order, devices);
    ClaimantsAreListed(st, name, isNode, order);
    if devices != {} {
      hide Lists, RecordsProper;
      assert forall d :: d in devices <==> Claims(st.records, name, d);
      ClaimsAreStored(st, devpath, u, name, isNode, best);
      hide ClaimOf, Current;
      var d :| d in devices;
      assert Claims(st.records, name, d);
      var pick := Pick(st.records, devpath, u, name, order);
      PickLeads(st.records, devpath, u, name, order, best);
      var dev := UpdateLink(st, devpath, u, name, ls, k).dev;
      assert dev[name] == Link(pick.value.target);
      var w :| Claims(st.records, name, w) && (best ==> Wins(st.records, name, w)) && pick.value.target == Stored(st.records, w).value.name;
      assert LeadsTo(st.records, dev, name, w, best);
    }
  }

  /** What a claimant bids is what its record says, or what the event says for the handled device. */
  lemma ClaimsAreStored(st: State, devpath: string, u: Device, name: string, isNode: string -> bool, best: bool)
    requires RecordsProper(st.records, isNode) && !isNode(name) && isNode(u.name)
    requires Current(st.records, devpath, u, name, best)
    ensures forall e | Claims(st.records, name, e) :: Bids(st.records, devpath, u, name, e, best)
  {
  }

  ghost predicate Bids(records: map<string, DbFile>, devpath: string, u: Device, name: string, e: string, best: bool)
    requires Claims(records, name, e)
  {
    var c, v := ClaimOf(records, devpath, u, name, e), Stored(records, e).value;
    c.Some? && c.value.target == v.name && (best ==> c.value.priority == v.priority)
    && (e == devpath ==> c.value.target == u.name)
  }

  /** The claim picked is that of a claimant, of the best one if bids are as stored. */
  lemma PickLeads(records: map<string, DbFile>, devpath: string, u: Device, name: string, order: seq<string>, best: bool)
    requires forall i, j | 0 <= i < j < |order| :: order[i] != order[j]
    requires forall d :: d in order <==> Claims(records, name, d)
    requires forall e | Claims(records, name, e) :: Bids(records, devpath, u, name, e, best)
    requires Claimed(records, name)
    ensures var pick := Pick(records, devpath, u, name, order);
      && pick.Some?
      && (exists d :: Claims(records, name, d) && (best ==> Wins(records, name, d)) && pick.value.target == Stored(records, d).value.name)
      && (best && Wins(records, name, devpath) ==> pick.value.target == u.name)
  {
    PickIsBest(records, devpath, u, name, order);
    hide ClaimOf, Stored, Pick;
    var pick := Pick(records, devpath, u, name, order);
    var d :| Claims(records, name, d);
    assert Bids(records, devpath, u, name, d, best);
    var w :| MadeBy(records, devpath, u, name, order, w, pick.value);
    assert Bids(records, devpath, u, name, w, best);
    if best {
      forall e | Claims(records, name, e)
        ensures Stored(records, e).value.priority <= Stored(records, w).value.priority
      {
        assert Bids(records, devpath, u, name, e, best);
        assert MadeBy(records, devpath, u, name, order, e, ClaimOf(records, devpath, u, name, e).value);
      }
      if Wins(records, name, devpath) {
        assert Bids(records, devpath, u, name, devpath, best);
        assert MadeBy(records, devpath, u, name, order, devpath, ClaimOf(records, devpath, u, name, devpath).value);
      }
    }
  }

  lemma UpdateLinkFrame(st: State, devpath: string, u: Device, name: string, ls: Readdir, k: nat)
    ensures var r := UpdateLink(st, devpath, u, name, ls, k);
      && r.records == st.records && r.index == st.index
      && (forall x | x != name :: (x in r.dev <==> x in st.dev) && (x in st.dev ==> r.dev[x] == st.dev[x]))
      && (name in r.dev && r.dev[name].Node? ==> name in st.dev && r.dev[name] == st.dev[name])
  {
  }

  ghost predicate LinksAreLinks(dev: map<string, Entry>, isNode: string -> bool) {
    forall name | !isNode(name) && name in dev :: dev[name].Link?
  }

  /** Updating a list of names changes nothing but the links of these names. */
  lemma {:induction false} UpdateLinksFrame(st: State, devpath: string, u: Device, names: seq<string>, ls: Readdir, k: nat, isNode: string -> bool)
    requires LinksAreLinks(st.dev, isNode)
    ensures var r := UpdateLinks(st, devpath, u, names, ls, k);
      && r.records == st.records && r.index == st.index && LinksAreLinks(r.dev, isNode)
      && (forall x | x !in names :: (x in r.dev <==> x in st.dev) && (x in st.dev ==> r.dev[x] == st.dev[x]))
    decreases |names|
  {
    if names != [] {
      var st1 := UpdateLink(st, devpath, u, names[0], ls, k);
      UpdateLinkFrame(st, devpath, u, names[0], ls, k);
      hide UpdateLink;
      UpdateLinksFrame(st1, devpath, u, names[1..], ls, k + 1, isNode);
    }
  }

  /** Updating a list of names makes the links among them right, keeps the other links right,
      and lets the handled device win every tie. */
  lemma {:induction false} UpdateLinksAreRight(st: State, devpath: string, u: Device, names: seq<string>, ls: Readdir, k: nat, isNode: string -> bool, best: bool)
    requires IndexAgrees(st.records, st.index) && RecordsProper(st.records, isNode) && Lists(ls)
    requires isNode(u.name) && LinksAreLinks(st.dev, isNode)
    requires forall name :: Current(st.records, devpath, u, name, best)
    ensures var r := UpdateLinks(st, devpath, u, names, ls, k);
      && r.records == st.records
      && (forall name | !isNode(name) && (name in names || LinkRight(st.records, st.dev, name, best)) ::
            LinkRight(r.records, r.dev, name, best))
      && (forall name | best && !isNode(name) && name in names && Wins(st.records, name, devpath) ::
            name in r.dev && r.dev[name] == Link(u.name))
    decreases |names|
  {
    hide IndexAgrees, RecordsProper, Lists, Wins, Claims, Current, LinkRight;
    if names != [] {
      var st1 := UpdateLink(st, devpath, u, names[0], ls, k);
      UpdateLinkFrame(st, devpath, u, names[0], ls, k);
      if !isNode(names[0]) {
        UpdateLinkIsRight(st, devpath, u, names[0], ls, k, isNode, best);
        WinnerClaims(st.records, st1.dev, names[0], devpath, best);
      }
      hide UpdateLink;
      UpdateLinksAreRight(st1, devpath, u, names[1..], ls, k + 1, isNode, best);
      UpdateLinksFrame(st1, devpath, u, names[1..], ls, k + 1, isNode);
      var r := UpdateLinks(st, devpath, u, names, ls, k);
      forall name | !isNode(name) && (name in names || LinkRight(st.records, st.dev, name, best))
        ensures LinkRight(r.records, r.dev, name, best)
      {
        if name != names[0] {
          SameEntrySameLink(st.records, st.dev, st1.dev, name, best);
        }
      }
    }
  }

  lemma WinnerClaims(records: map<string, DbFile>, dev: map<string, Entry>, name: string, d: string, best: bool)
    requires LinkRight(records, dev, name, best)
    ensures Wins(records, name, d) ==> name in dev
  {
  }

  lemma SameEntrySameLink(records: map<string, DbFile>, dev: map<string, Entry>, dev1: map<string, Entry>, name: string, best: bool)
    requires (name in dev1 <==> name in dev) && (name in dev ==> dev1[name] == dev[name])
    ensures LinkRight(records, dev, name, best) <==> LinkRight(records, dev1, name, best)
  {
    hide Wins, Claims;
    if name in dev && dev[name].Link? {
      assert forall d :: LeadsTo(records, dev, name, d, best) <==> LeadsTo(records, dev1, name, d, best);
    }
  }

  /** Changing the record of one device leaves the links right that it neither claims nor claimed. */
  lemma OtherLinksStayRight(records: map<string, DbFile>, records1: map<string, DbFile>, dev: map<string, Entry>, devpath: string, name: string, best: bool)
    requires forall d | d != devpath :: Stored(records1, d) == Stored(records, d)
    requires !Claims(records, name, devpath) && !Claims(records1, name, devpath)
    requires LinkRight(records, dev, name, best)
    ensures LinkRight(records1, dev, name, best)
  {
    hide Stored;
    assert forall d :: Claims(records1, name, d) <==> Claims(records, name, d);
    assert forall d | Claims(records, name, d) :: d != devpath;
    if Claimed(records, name) {
      var d :| LeadsTo(records, dev, name, d, best);
      assert LeadsTo(records1, dev, name, d, best);
    }
  }

  // ----- The events -----

  /** The former record of a device is gone and the device is stored anew, with its node. */
  function Stocked(st: State, devpath: string, u: Device): State {
    var former := Stored(st.records, devpath);
    DbAdd(NodeAdd(if former.Some? then DbDelete(st, devpath, former.value) else st, u), devpath, u)
  }

  lemma StockedIsSound(st: State, devpath: string, u: Device, isNode: string -> bool)
    requires RecordsProper(st.records, isNode) && IndexAgrees(st.records, st.index) && Proper(u, isNode)
    ensures var r := Stocked(st, devpath, u);
      && RecordsProper(r.records, isNode) && IndexAgrees(r.records, r.index)
      && r.dev == st.dev[u.name := Node(u.devt)]
      && (forall d | d != devpath :: Stored(r.records, d) == Stored(st.records, d))
      && Stored(r.records, devpath).Some?
      && Stored(r.records, devpath).value.name == u.name && Stored(r.records, devpath).value.symlinks == u.symlinks
      && (forall name, best | best ==> Ranked(u) :: Current(r.records, devpath, u, name, best))
  {
    hide Load, Names, Save, IndexAgrees;
    var former := Stored(st.records, devpath);
    var st1 := if former.Some? then DbDelete(st, devpath, former.value) else st;
    if former.Some? {
      DeleteKeepsIndex(st, devpath, former.value);
    }
    OthersAreKept(st.records, devpath, NameLink(""));
    OthersAreKept(st1.records, devpath, Save(u));
    AddKeepsIndex(NodeAdd(st1, u), devpath, u);
    SavedIsLoaded(st1.records, devpath, u);
  }

  /** What holds whether or not events are ignored. */
  ghost predicate Sound(st: State, isNode: string -> bool) {
    && RecordsProper(st.records, isNode)
    && IndexAgrees(st.records, st.index)
    && LinksAreLinks(st.dev, isNode)
  }

  lemma UntouchedLinksStayRight(records: map<string, DbFile>, dev: map<string, Entry>, records1: map<string, DbFile>, dev1: map<string, Entry>,
                                devpath: string, names: seq<string>, isNode: string -> bool, best: bool)
    requires LinksRight(records, dev, isNode, best)
    requires forall d | d != devpath :: Stored(records1, d) == Stored(records, d)
    requires forall x | !isNode(x) :: (x in dev1 <==> x in dev) && (x in dev ==> dev1[x] == dev[x])
    requires forall x | x !in names :: !Claims(records, x, devpath) && !Claims(records1, x, devpath)
    ensures forall name | !isNode(name) && name !in names :: LinkRight(records1, dev1, name, best)
  {
    hide Claims, LinkRight, Stored;
    forall name | !isNode(name) && name !in names
      ensures LinkRight(records1, dev1, name, best)
    {
      OtherLinksStayRight(records, records1, dev, devpath, name, best);
      SameEntrySameLink(records1, dev, dev1, name, best);
    }
  }

  lemma AddIsSound(st: State, devpath: string, u: Device, ls: Readdir, isNode: string -> bool)
    requires Sound(st, isNode) && Proper(u, isNode)
    ensures Sound(AddDevice(st, devpath, u, ls), isNode)
  {
    var names, st2 := NamesToUpdate(u, Stored(st.records, devpath)), Stocked(st, devpath, u);
    StockedIsSound(st, devpath, u, isNode);
    hide RecordsProper, IndexAgrees, Current, Stored, NamesToUpdate, UpdateLinks;
    UpdateLinksFrame(st2, devpath, u, names, ls, 0, isNode);
  }

  lemma AddKeepsLinks(st: State, devpath: string, u: Device, ls: Readdir, isNode: string -> bool, best: bool)
    requires Sound(st, isNode) && Proper(u, isNode) && Lists(ls) && (best ==> Ranked(u))
    ensures var r := AddDevice(st, devpath, u, ls);
      && (LinksRight(st.records, st.dev, isNode, best) ==> LinksRight(r.records, r.dev, isNode, best))
      && (forall s | s in u.symlinks :: LinkRight(r.records, r.dev, s, best))
      && (forall s | best && s in u.symlinks && Wins(r.records, s, devpath) :: s in r.dev && r.dev[s] == Link(u.name))
  {
    var names, st2 := NamesToUpdate(u, Stored(st.records, devpath)), Stocked(st, devpath, u);
    StockedIsSound(st, devpath, u, isNode);
    assert forall name :: Current(st2.records, devpath, u, name, best);
    hide Ranked;
    NamesCoverClaims(st, st2, devpath, u);
    hide RecordsProper, IndexAgrees, Lists, Wins, Current, LinkRight, Stored, NamesToUpdate, UpdateLinks;
    UpdateLinksAreRight(st2, devpath, u, names, ls, 0, isNode, best);
    if LinksRight(st.records, st.dev, isNode, best) {
      UntouchedLinksStayRight(st.records, st.dev, st2.records, st2.dev, devpath, names, isNode, best);
    }
  }

  /** Every link the device claims or claimed is looked at again. */
  lemma NamesCoverClaims(st: State, st2: State, devpath: string, u: Device)
    requires Stored(st2.records, devpath).Some? && Stored(st2.records, devpath).value.symlinks == u.symlinks
    ensures var names := NamesToUpdate(u, Stored(st.records, devpath));
      && (forall x | x !in names :: !Claims(st.records, x, devpath) && !Claims(st2.records, x, devpath))
      && (forall x | x in u.symlinks :: x in names)
  {
  }

  /** The record of the device is gone, the links not yet looked at. */
  lemma DroppedIsSound(st: State, devpath: string, kernel: string, devt: Devt, isNode: string -> bool)
    requires Sound(st, isNode)
    ensures var u := RemovedDevice(st.records, devpath, kernel, devt);
      var r := if Stored(st.records, devpath).Some? then DbDelete(st, devpath, u) else st;
      && Sound(r, isNode)
      && (forall d | d != devpath :: Stored(r.records, d) == Stored(st.records, d))
      && Stored(r.records, devpath).None?
  {
  }

  lemma NodeRemoveFrame(st: State, u: Device)
    ensures var r := NodeRemove(st, u);
      && r.records == st.records && r.index == st.index
      && (forall x | x != u.name :: (x in r.dev <==> x in st.dev) && (x in st.dev ==> r.dev[x] == st.dev[x]))
  {
  }

  lemma RemoveIsSound(st: State, devpath: string, kernel: string, devt: Devt, ignored: bool, ls: Readdir, isNode: string -> bool)
    requires Sound(st, isNode)
    ensures Sound(RemoveDevice(st, devpath, kernel, devt, ignored, ls), isNode)
  {
    var u := RemovedDevice(st.records, devpath, kernel, devt);
    var st1 := if Stored(st.records, devpath).Some? then DbDelete(st, devpath, u) else st;
    DroppedIsSound(st, devpath, kernel, devt, isNode);
    if Stored(st.records, devpath).None? {
      StrangerRemoval(st, devpath, kernel, devt, ignored, ls);
    } else if !Kept(st, devpath, kernel, devt, ignored) {
      NodeRemoveFrame(st1, u);
      assert isNode(u.name);
      hide RecordsProper, IndexAgrees, Stored, NodeRemove, UpdateLinks;
      UpdateLinksFrame(NodeRemove(st1, u), devpath, u, u.symlinks, ls, 0, isNode);
    }
  }

  /** A device that is not in the database goes by the kernel's name: whatever has this name in /dev
      is taken away, if it is or leads to a node with the number of the event. */
  predicate TakesAway(st: State, devpath: string, kernel: string, devt: Devt, ignored: bool) {
    var stats := StatDevt(st.dev, kernel);
    Stored(st.records, devpath).None? && !ignored && stats.Some? && (devt == Devt(0, 0) || stats.value == devt)
  }

  lemma StrangerRemoval(st: State, devpath: string, kernel: string, devt: Devt, ignored: bool, ls: Readdir)
    requires Stored(st.records, devpath).None?
    ensures RemoveDevice(st, devpath, kernel, devt, ignored, ls) ==
      if TakesAway(st, devpath, kernel, devt, ignored) then st.(dev := st.dev - {kernel}) else st
  {
    hide Stored;
  }

  /** The removal of a device that is not in the database keeps the links right exactly if it does
      not take a link away. */
  lemma StrangerKeepsLinksIff(st: State, devpath: string, kernel: string, devt: Devt, ignored: bool, ls: Readdir, isNode: string -> bool, best: bool)
    requires Stored(st.records, devpath).None? && LinksRight(st.records, st.dev, isNode, best)
    ensures var r := RemoveDevice(st, devpath, kernel, devt, ignored, ls);
      LinksRight(r.records, r.dev, isNode, best) <==> isNode(kernel) || !TakesAway(st, devpath, kernel, devt, ignored)
  {
    StrangerRemoval(st, devpath, kernel, devt, ignored, ls);
    hide Stored, Claims, Wins, RemoveDevice;
    var r := RemoveDevice(st, devpath, kernel, devt, ignored, ls);
    if TakesAway(st, devpath, kernel, devt, ignored) && !isNode(kernel) {
      assert LinkRight(st.records, st.dev, kernel, best);
      assert !LinkRight(r.records, r.dev, kernel, best);
    } else {
      hide LinkRight;
      forall name | !isNode(name)
        ensures LinkRight(r.records, r.dev, name, best)
      {
        SameEntrySameLink(st.records, st.dev, r.dev, name, best);
      }
    }
  }

  /** A removal that is not ignored keeps the links right. */
  lemma RemoveKeepsLinks(st: State, devpath: string, kernel: string, devt: Devt, ignored: bool, ls: Readdir, isNode: string -> bool, best: bool)
    requires Sound(st, isNode) && Lists(ls) && Stored(st.records, devpath).Some?
    requires LinksRight(st.records, st.dev, isNode, best) && !Kept(st, devpath, kernel, devt, ignored)
    ensures var r := RemoveDevice(st, devpath, kernel, devt, ignored, ls);
      LinksRight(r.records, r.dev, isNode, best)
  {
    var u := RemovedDevice(st.records, devpath, kernel, devt);
    var st1 := DbDelete(st, devpath, u);
    DroppedIsSound(st, devpath, kernel, devt, isNode);
    assert isNode(u.name);
    var st2 := NodeRemove(st1, u);
    NodeRemoveFrame(st1, u);
    assert forall x | x !in u.symlinks :: !Claims(st.records, x, devpath);
    hide RecordsProper, IndexAgrees, Lists, Wins, LinkRight, Stored, NodeRemove, UpdateLinks;
    assert forall x :: !Claims(st2.records, x, devpath);
    UpdateLinksAreRight(st2, devpath, u, u.symlinks, ls, 0, isNode, best);
    UntouchedLinksStayRight(st.records, st.dev, st2.records, st2.dev, devpath, u.symlinks, isNode, best);
  }

  /** The removal leaves node and links in place. */
  predicate Kept(st: State, devpath: string, kernel: string, devt: Devt, ignored: bool) {
    ignored || RemovedDevice(st.records, devpath, kernel, devt).ignoreRemove
  }

  predicate KeptEvent(st: State, ev: Event) {
    ev.Remove? && Stored(st.records, ev.devpath).Some? && Kept(st, ev.devpath, ev.kernel, ev.devt, ev.ignored)
  }

  predicate TakesLink(st: State, ev: Event, isNode: string -> bool) {
    ev.Remove? && !isNode(ev.kernel) && TakesAway(st, ev.devpath, ev.kernel, ev.devt, ev.ignored)
  }

  lemma NextIsSound(st: State, ev: Event, isNode: string -> bool)
    requires Sound(st, isNode) && Legal(ev, isNode)
    ensures Sound(Next(st, ev), isNode)
  {
    hide Sound, Lists, Proper, AddDevice, RemoveDevice;
    match ev {
      case Add(devpath, u, ignored, ls) =>
        if !ignored && u.name != "" {
          AddIsSound(st, devpath, u, ls, isNode);
        }
      case Remove(devpath, kernel, devt, ignored, ls) =>
        RemoveIsSound(st, devpath, kernel, devt, ignored, ls, isNode);
    }
  }

  lemma NextKeepsLinks(st: State, ev: Event, isNode: string -> bool, best: bool)
    requires Sound(st, isNode) && Legal(ev, isNode) && (best ==> RankedEvent(ev))
    requires LinksRight(st.records, st.dev, isNode, best)
    requires !TakesLink(st, ev, isNode) && !KeptEvent(st, ev)
    ensures LinksRight(Next(st, ev).records, Next(st, ev).dev, isNode, best)
  {
    hide Sound, LinksRight, Lists, Proper, Ranked, AddDevice, RemoveDevice, TakesAway, Stored;
    match ev {
      case Add(devpath, u, ignored, ls) =>
        if !ignored && u.name != "" {
          AddKeepsLinks(st, devpath, u, ls, isNode, best);
        }
      case Remove(devpath, kernel, devt, ignored, ls) =>
        if Stored(st.records, devpath).None? {
          StrangerKeepsLinksIff(st, devpath, kernel, devt, ignored, ls, isNode, best);
        } else {
          RemoveKeepsLinks(st, devpath, kernel, devt, ignored, ls, isNode, best);
        }
    }
  }

  // ----- Main results over every run -----

  /** What is stored by the event can be read back. */
  ghost predicate Readable(ev: Event) {
    ev.Add? ==> ev.ignored || ev.device.name == "" || WellFormed(ev.device)
  }

  lemma {:induction false} LinksLeaveDatabase(st: State, devpath: string, u: Device, names: seq<string>, ls: Readdir, k: nat)
    ensures var r := UpdateLinks(st, devpath, u, names, ls, k); r.records == st.records && r.index == st.index
    decreases |names|
  {
    if names != [] {
      UpdateLinkFrame(st, devpath, u, names[0], ls, k);
      LinksLeaveDatabase(UpdateLink(st, devpath, u, names[0], ls, k), devpath, u, names[1..], ls, k + 1);
    }
  }

  lemma AddDeviceKeepsIndex(st: State, devpath: string, u: Device, ls: Readdir)
    requires IndexAgrees(st.records, st.index) && WellFormed(u)
    ensures var r := AddDevice(st, devpath, u, ls); IndexAgrees(r.records, r.index)
  {
    var former := Stored(st.records, devpath);
    var st1 := if former.Some? then DbDelete(st, devpath, former.value) else st;
    if former.Some? {
      DeleteKeepsIndex(st, devpath, former.value);
    }
    OthersAreKept(st.records, devpath, NameLink(""));
    hide IndexAgrees, WellFormed, Save, Load, UpdateLinks, NamesToUpdate;
    AddKeepsIndex(NodeAdd(st1, u), devpath, u);
    LinksLeaveDatabase(DbAdd(NodeAdd(st1, u), devpath, u), devpath, u, NamesToUpdate(u, former), ls, 0);
  }

  lemma RemoveDeviceKeepsIndex(st: State, devpath: string, kernel: string, devt: Devt, ignored: bool, ls: Readdir)
    requires IndexAgrees(st.records, st.index)
    ensures var r := RemoveDevice(st, devpath, kernel, devt, ignored, ls); IndexAgrees(r.records, r.index)
  {
    var u := RemovedDevice(st.records, devpath, kernel, devt);
    var st1 := if Stored(st.records, devpath).Some? then DbDelete(st, devpath, u) else st;
    if Stored(st.records, devpath).Some? {
      DeleteKeepsIndex(st, devpath, u);
    }
    NodeRemoveFrame(st1, u);
    hide IndexAgrees, Stored, NodeRemove, UpdateLinks;
    LinksLeaveDatabase(NodeRemove(st1, u), devpath, u, u.symlinks, ls, 0);
  }

  /** In every run the index holds exactly the pairs of a name and a stored device with it, whatever
      the names are, and even if events are ignored. */
  lemma {:induction false} IndexAlwaysAgrees(events: seq<Event>)
    requires forall i | 0 <= i < |events| :: Readable(events[i])
    ensures IndexAgrees(Run(events).records, Run(events).index)
  {
    hide Readable;
    if events != [] {
      var n := |events| - 1;
      IndexAlwaysAgrees(events[..n]);
      NextKeepsIndex(Run(events[..n]), events[n]);
    }
  }

  lemma NextKeepsIndex(st: State, ev: Event)
    requires IndexAgrees(st.records, st.index) && Readable(ev)
    ensures IndexAgrees(Next(st, ev).records, Next(st, ev).index)
  {
    hide IndexAgrees, WellFormed, AddDevice, RemoveDevice;
    match ev {
      case Add(devpath, u, ignored, ls) =>
        if !ignored && u.name != "" {
          AddDeviceKeepsIndex(st, devpath, u, ls);
        }
      case Remove(devpath, kernel, devt, ignored, ls) =>
        RemoveDeviceKeepsIndex(st, devpath, kernel, devt, ignored, ls);
    }
  }

  /** In every run in which node names and link names are told apart, even if events are ignored. */
  lemma {:induction false} RunIsSound(events: seq<Event>, isNode: string -> bool)
    requires forall i | 0 <= i < |events| :: Legal(events[i], isNode)
    ensures Sound(Run(events), isNode)
  {
    hide Legal;
    if events != [] {
      var n := |events| - 1;
      RunIsSound(events[..n], isNode);
      NextIsSound(Run(events[..n]), events[n], isNode);
    }
  }

  /** The event neither is an ignored removal nor takes the link of a device away that is there. */
  predicate Tidy(st: State, ev: Event, isNode: string -> bool) {
    !KeptEvent(st, ev) && !TakesLink(st, ev, isNode)
  }

  /** In every run of tidy events each link name is absent when unclaimed, and else leads to the
      node of a claimant; of one with maximal priority, if all priorities of claimants are read back
      as they were stored. */
  lemma {:induction false} LinksAlwaysRight(events: seq<Event>, isNode: string -> bool, best: bool)
    requires forall i | 0 <= i < |events| :: Legal(events[i], isNode) && Tidy(Run(events[..i]), events[i], isNode)
    requires best ==> forall i | 0 <= i < |events| :: RankedEvent(events[i])
    ensures LinksRight(Run(events).records, Run(events).dev, isNode, best)
  {
    hide Legal, Tidy, RankedEvent;
    if events == [] {
      assert forall name :: !Claimed(INIT.records, name);
    } else {
      var n := |events| - 1;
      forall i | 0 <= i < n
        ensures Legal(events[..n][i], isNode) && Tidy(Run(events[..n][..i]), events[..n][i], isNode)
      {
        assert events[..n][..i] == events[..i];
      }
      LinksAlwaysRight(events[..n], isNode, best);
      RunIsSound(events[..n], isNode);
      hide LinksRight, Sound;
      assert Tidy(Run(events[..n]), events[n], isNode);
      TidyKeepsLinks(Run(events[..n]), events[n], isNode, best);
    }
  }

  lemma TidyKeepsLinks(st: State, ev: Event, isNode: string -> bool, best: bool)
    requires Sound(st, isNode) && Legal(ev, isNode) && (best ==> RankedEvent(ev)) && Tidy(st, ev, isNode)
    requires LinksRight(st.records, st.dev, isNode, best)
    ensures LinksRight(Next(st, ev).records, Next(st, ev).dev, isNode, best)
  {
    hide Sound, LinksRight, Legal, RankedEvent, KeptEvent, TakesLink;
    NextKeepsLinks(st, ev, isNode, best);
  }

  /** The device just handled wins every tie on the links it claims, if its own priority is read
      back as it was stored, whatever the others' are. */
  lemma HandledDeviceWinsTies(events: seq<Event>, ev: Event, s: string, isNode: string -> bool)
    requires forall i | 0 <= i < |events| :: Legal(events[i], isNode)
    requires Legal(ev, isNode) && ev.Add? && !ev.ignored && ev.device.name != "" && s in ev.device.symlinks
    requires RankedEvent(ev) && Wins(Run(events + [ev]).records, s, ev.devpath)
    ensures s in Run(events + [ev]).dev && Run(events + [ev]).dev[s] == Link(ev.device.name)
  {
    assert (events + [ev])[..|events|] == events;
    hide Sound, Proper, Lists, Wins, AddDevice;
    RunIsSound(events, isNode);
    AddKeepsLinks(Run(events), ev.devpath, ev.device, ev.ls, isNode, true);
  }

  // ----- Nodes behind the links -----

  /** No two devices share a node name. */
  ghost predicate NodesDistinct(records: map<string, DbFile>) {
    forall d, e | Stored(records, d).Some? && Stored(records, e).Some? && Stored(records, d).value.name == Stored(records, e).value.name :: d == e
  }

  ghost predicate NodesPresent(records: map<string, DbFile>, dev: map<string, Entry>) {
    forall d | Stored(records, d).Some? :: var n := Stored(records, d).value.name; n in dev && dev[n].Node?
  }

  /** The node of the name is that of some stored device. */
  ghost predicate HasNode(records: map<string, DbFile>, name: string) {
    exists d :: Stored(records, d).Some? && Stored(records, d).value.name == name
  }

  /** The event gives no device a node name that another stored device has, and takes no node of a
      stored device away. */
  ghost predicate NamesFree(st: State, ev: Event) {
    match ev
    case Add(devpath, u, ignored, _) =>
      !ignored ==> forall d | d != devpath && Stored(st.records, d).Some? :: Stored(st.records, d).value.name != u.name
    case Remove(devpath, kernel, devt, ignored, _) =>
      TakesAway(st, devpath, kernel, devt, ignored) ==> !HasNode(st.records, kernel)
  }

  /** The removal of a device that is not in the database leaves every stored device its node exactly
      if it does not take one of these nodes away. */
  lemma StrangerKeepsNodesIff(st: State, devpath: string, kernel: string, devt: Devt, ignored: bool, ls: Readdir)
    requires Stored(st.records, devpath).None? && NodesPresent(st.records, st.dev)
    ensures var r := RemoveDevice(st, devpath, kernel, devt, ignored, ls);
      r.records == st.records &&
      (NodesPresent(r.records, r.dev) <==> !(TakesAway(st, devpath, kernel, devt, ignored) && HasNode(st.records, kernel)))
  {
    StrangerRemoval(st, devpath, kernel, devt, ignored, ls);
    hide Stored, RemoveDevice, TakesAway;
  }

  lemma AddKeepsNodes(st: State, devpath: string, u: Device, ls: Readdir, isNode: string -> bool)
    requires Sound(st, isNode) && Proper(u, isNode)
    requires NodesDistinct(st.records) && NodesPresent(st.records, st.dev)
    requires forall d | d != devpath && Stored(st.records, d).Some? :: Stored(st.records, d).value.name != u.name
    ensures var r := AddDevice(st, devpath, u, ls); NodesDistinct(r.records) && NodesPresent(r.records, r.dev)
  {
    var names, st2 := NamesToUpdate(u, Stored(st.records, devpath)), Stocked(st, devpath, u);
    StockedIsSound(st, devpath, u, isNode);
    StoredNamesAreKept(st, st2, devpath, u, isNode);
    hide IndexAgrees, Current, Stored, NamesToUpdate, UpdateLinks, RecordsProper;
    UpdateLinksFrame(st2, devpath, u, names, ls, 0, isNode);
  }

  /** The name of no stored device is among the links looked at again. */
  lemma StoredNamesAreKept(st: State, st2: State, devpath: string, u: Device, isNode: string -> bool)
    requires RecordsProper(st.records, isNode) && Proper(u, isNode) && NodesDistinct(st.records)
    requires forall d | d != devpath :: Stored(st2.records, d) == Stored(st.records, d)
    requires Stored(st2.records, devpath).Some? && Stored(st2.records, devpath).value.name == u.name
    ensures forall d | Stored(st2.records, d).Some? ::
      Stored(st2.records, d).value.name !in NamesToUpdate(u, Stored(st.records, devpath))
  {
    hide Load;
    var former := Stored(st.records, devpath);
    forall d | Stored(st2.records, d).Some?
      ensures Stored(st2.records, d).value.name !in NamesToUpdate(u, former)
    {
      var n := Stored(st2.records, d).value.name;
      assert isNode(n);
      if former.Some? && d != devpath {
        assert n != former.value.name;
      }
    }
  }

  lemma RemoveKeepsNodes(st: State, devpath: string, kernel: string, devt: Devt, ignored: bool, ls: Readdir, isNode: string -> bool)
    requires Sound(st, isNode) && Stored(st.records, devpath).Some?
    requires NodesDistinct(st.records) && NodesPresent(st.records, st.dev)
    ensures var r := RemoveDevice(st, devpath, kernel, devt, ignored, ls);
      NodesDistinct(r.records) && NodesPresent(r.records, r.dev)
  {
    var u := RemovedDevice(st.records, devpath, kernel, devt);
    var st1 := if Stored(st.records, devpath).Some? then DbDelete(st, devpath, u) else st;
    DroppedIsSound(st, devpath, kernel, devt, isNode);
    if !Kept(st, devpath, kernel, devt, ignored) {
      var st2 := NodeRemove(st1, u);
      NodeRemoveFrame(st1, u);
      assert isNode(u.name) && forall s | s in u.symlinks :: !isNode(s);
      hide IndexAgrees, Stored, NodeRemove, UpdateLinks;
      UpdateLinksFrame(st2, devpath, u, u.symlinks, ls, 0, isNode);
      forall d | Stored(st2.records, d).Some?
        ensures var n := Stored(st2.records, d).value.name; n != u.name && n !in u.symlinks
      {
        assert d != devpath;
      }
    }
  }

  /** If no two devices ever share a node name and no removal takes the node of another device, then
      every stored device has its node and, if all events are tidy, every link leads to a node. */
  lemma {:induction false} NoDanglingLinks(events: seq<Event>, isNode: string -> bool)
    requires forall i | 0 <= i < |events| :: Legal(events[i], isNode) && NamesFree(Run(events[..i]), events[i])
    ensures NodesDistinct(Run(events).records) && NodesPresent(Run(events).records, Run(events).dev)
    ensures (forall i | 0 <= i < |events| :: Tidy(Run(events[..i]), events[i], isNode)) ==>
              var dev := Run(events).dev;
              forall s | !isNode(s) && s in dev :: dev[s].Link? && dev[s].target in dev && dev[dev[s].target].Node?
  {
    hide Legal, NamesFree, Tidy;
    if events == [] {
    } else {
      var n := |events| - 1;
      var st, ev := Run(events[..n]), events[n];
      forall i | 0 <= i < n
        ensures Legal(events[..n][i], isNode) && NamesFree(Run(events[..n][..i]), events[..n][i])
      {
        assert events[..n][..i] == events[..i];
      }
      NoDanglingLinks(events[..n], isNode);
      RunIsSound(events[..n], isNode);
      assert Legal(ev, isNode) && NamesFree(st, ev);
      NextKeepsNodes(st, ev, isNode);
    }
    if forall i | 0 <= i < |events| :: Tidy(Run(events[..i]), events[i], isNode) {
      LinksAlwaysRight(events, isNode, false);
      hide Run, Legal, NamesFree, Stored;
      var st := Run(events);
      forall s | !isNode(s) && s in st.dev
        ensures st.dev[s].Link? && st.dev[s].target in st.dev && st.dev[st.dev[s].target].Node?
      {
        assert LinkRight(st.records, st.dev, s, false);
        var d :| LeadsTo(st.records, st.dev, s, d, false);
      }
    }
  }

  lemma NextKeepsNodes(st: State, ev: Event, isNode: string -> bool)
    requires Sound(st, isNode) && Legal(ev, isNode) && NamesFree(st, ev)
    requires NodesDistinct(st.records) && NodesPresent(st.records, st.dev)
    ensures NodesDistinct(Next(st, ev).records) && NodesPresent(Next(st, ev).records, Next(st, ev).dev)
  {
    hide Sound, NodesPresent, Lists, Proper, Stored, RemoveDevice, AddDevice, TakesAway, HasNode;
    match ev {
      case Add(devpath, u, ignored, ls) =>
        if !ignored && u.name != "" {
          AddKeepsNodes(st, devpath, u, ls, isNode);
        }
      case Remove(devpath, kernel, devt, ignored, ls) =>
        if Stored(st.records, devpath).None? {
          StrangerKeepsNodesIff(st, devpath, kernel, devt, ignored, ls);
        } else {
          RemoveKeepsNodes(st, devpath, kernel, devt, ignored, ls, isNode);
        }
    }
  }

  /** Among the other claimants of the name, e has the highest priority. */
  ghost predicate BestOfOthers(records: map<string, DbFile>, name: string, devpath: string, e: string) {
    && e != devpath && Claims(records, name, e)
    && forall d | d != devpath && Claims(records, name, d) :: Stored(records, d).value.priority <= Stored(records, e).value.priority
  }

  /** The link leads to another node than the device's, or to one that the best of the other
      claimants has too. */
  ghost predicate LeadsElsewhere(records: map<string, DbFile>, dev: map<string, Entry>, name: string, devpath: string)
    requires name in dev && Stored(records, devpath).Some?
  {
    || dev[name] != Link(Stored(records, devpath).value.name)
    || exists e :: BestOfOthers(records, name, devpath, e) && Stored(records, e).value.name == Stored(records, devpath).value.name
  }

  /** A link claimed by a device that drops out of the records, without the link being looked at
      again, stays right exactly if it leads elsewhere. */
  lemma DroppedClaimant(records: map<string, DbFile>, records1: map<string, DbFile>, dev: map<string, Entry>, devpath: string, name: string)
    requires LinkRight(records, dev, name, true) && Claims(records, name, devpath)
    requires forall d | d != devpath :: Stored(records1, d) == Stored(records, d)
    requires Stored(records1, devpath).None?
    ensures name in dev && (LinkRight(records1, dev, name, true) <==> LeadsElsewhere(records, dev, name, devpath))
  {
    hide Stored;
    assert forall d :: Claims(records1, name, d) <==> d != devpath && Claims(records, name, d);
    assert forall d :: Wins(records1, name, d) <==> BestOfOthers(records, name, devpath, d);
    var w :| LeadsTo(records, dev, name, w, true);
    if w != devpath {
      assert Wins(records1, name, w);
      assert LeadsTo(records1, dev, name, w, true);
      assert LeadsElsewhere(records, dev, name, devpath);
    } else if LeadsElsewhere(records, dev, name, devpath) {
      var e :| BestOfOthers(records, name, devpath, e) && Stored(records, e).value.name == Stored(records, devpath).value.name;
      assert LeadsTo(records1, dev, name, e, true);
    }
  }

  /** An ignored removal of a stored device keeps the links right exactly when each of the device's
      links leads elsewhere at that moment. */
  lemma KeptRemovalKeepsLinksIff(st: State, devpath: string, kernel: string, devt: Devt, ignored: bool, ls: Readdir, isNode: string -> bool)
    requires Sound(st, isNode) && LinksRight(st.records, st.dev, isNode, true)
    requires Stored(st.records, devpath).Some? && Kept(st, devpath, kernel, devt, ignored)
    ensures var r := RemoveDevice(st, devpath, kernel, devt, ignored, ls);
      LinksRight(r.records, r.dev, isNode, true) <==>
        forall s | s in Stored(st.records, devpath).value.symlinks ::
          s in st.dev && LeadsElsewhere(st.records, st.dev, s, devpath)
  {
    var r := RemoveDevice(st, devpath, kernel, devt, ignored, ls);
    var u := Stored(st.records, devpath).value;
    OthersAreKept(st.records, devpath, NameLink(""));
    assert r.dev == st.dev && forall s | s in u.symlinks :: !isNode(s) && Claims(st.records, s, devpath);
    hide IndexAgrees, RecordsProper, LinkRight, RemoveDevice, LeadsElsewhere, Stored;
    forall name | !isNode(name)
      ensures LinkRight(r.records, r.dev, name, true) <==>
        (name in u.symlinks ==> name in st.dev && LeadsElsewhere(st.records, st.dev, name, devpath))
    {
      if name in u.symlinks {
        DroppedClaimant(st.records, r.records, st.dev, devpath, name);
      } else {
        OtherLinksStayRight(st.records, r.records, st.dev, devpath, name, true);
      }
    }
  }

  /** If no two devices share a node name, that is when none of the links leads to its node. */
  lemma KeptRemovalAmongDistinctNodes(st: State, devpath: string, s: string)
    requires NodesDistinct(st.records) && Stored(st.records, devpath).Some? && s in st.dev
    ensures LeadsElsewhere(st.records, st.dev, s, devpath) <==> st.dev[s] != Link(Stored(st.records, devpath).value.name)
  {
    hide Stored;
  }

  /** The event is an ignored removal of a device some link of which leads to its node, or it takes a
      link away that is there. */
  ghost predicate BreaksLinks(st: State, ev: Event, isNode: string -> bool) {
    || TakesLink(st, ev, isNode)
    || (KeptEvent(st, ev) && !AllLeadElsewhere(st, ev.devpath))
  }

  ghost predicate AllLeadElsewhere(st: State, devpath: string)
    requires Stored(st.records, devpath).Some?
  {
    forall s | s in Stored(st.records, devpath).value.symlinks ::
      s in st.dev && LeadsElsewhere(st.records, st.dev, s, devpath)
  }

  /** An event keeps the links right exactly if it is not of that kind. */
  lemma NextKeepsLinksIff(st: State, ev: Event, isNode: string -> bool)
    requires Sound(st, isNode) && Legal(ev, isNode) && RankedEvent(ev)
    requires LinksRight(st.records, st.dev, isNode, true)
    ensures LinksRight(Next(st, ev).records, Next(st, ev).dev, isNode, true) <==> !BreaksLinks(st, ev, isNode)
  {
    hide Sound, LinksRight, Legal, RankedEvent, LeadsElsewhere, Stored, RemoveDevice, AddDevice, StatDevt;
    if ev.Add? || (Stored(st.records, ev.devpath).Some? && !KeptEvent(st, ev)) {
      NextKeepsLinks(st, ev, isNode, true);
    } else if Stored(st.records, ev.devpath).None? {
      StrangerKeepsLinksIff(st, ev.devpath, ev.kernel, ev.devt, ev.ignored, ev.ls, isNode, true);
    } else {
      KeptRemovalKeepsLinksIff(st, ev.devpath, ev.kernel, ev.devt, ev.ignored, ev.ls, isNode);
    }
  }

  ghost predicate LinksRightAfter(events: seq<Event>, isNode: string -> bool) {
    LinksRight(Run(events).records, Run(events).dev, isNode, true)
  }

  /** The links are right all along a run exactly if none of its events breaks them. */
  lemma {:induction false} LinksAreRightIff(events: seq<Event>, isNode: string -> bool)
    requires forall i | 0 <= i < |events| :: Legal(events[i], isNode) && RankedEvent(events[i])
    ensures (forall n | 0 <= n <= |events| :: LinksRightAfter(events[..n], isNode)) <==>
      forall n | 0 <= n < |events| :: !BreaksLinks(Run(events[..n]), events[n], isNode)
  {
    hide Legal, RankedEvent, LinksRightAfter, BreaksLinks, Run;
    assert events[..|events|] == events;
    if events == [] {
      assert LinksRightAfter([], isNode) by { NothingClaimed(isNode); }
    } else {
      var last := |events| - 1;
      var front := events[..last];
      assert forall n | 0 <= n <= last :: front[..n] == events[..n];
      assert forall n | 0 <= n < last :: front[n] == events[n];
      LinksAreRightIff(front, isNode);
      if LinksRightAfter(front, isNode) {
        RunIsSound(front, isNode);
        LastKeepsLinksIff(events, isNode);
      }
    }
  }

  lemma NothingClaimed(isNode: string -> bool)
    ensures LinksRightAfter([], isNode)
  {
    assert forall name :: !Claimed(INIT.records, name);
  }

  lemma LastKeepsLinksIff(events: seq<Event>, isNode: string -> bool)
    requires events != [] && Legal(events[|events|-1], isNode) && RankedEvent(events[|events|-1])
    requires Sound(Run(events[..|events|-1]), isNode) && LinksRightAfter(events[..|events|-1], isNode)
    ensures LinksRightAfter(events, isNode) <==> !BreaksLinks(Run(events[..|events|-1]), events[|events|-1], isNode)
  {
    hide Legal, RankedEvent, Sound, BreaksLinks, LinksRight, Next;
    NextKeepsLinksIff(Run(events[..|events|-1]), events[|events|-1], isNode);
  }
}
