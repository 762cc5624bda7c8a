/** Where the database and the links fall short of what the events ask for.
    Each shortcoming comes with a run that shows it, and where runs can be told apart by what they
    store, with the exact condition. */
module DeviceDbLimits {
  import opened CStrings
  import opened Decimal
  import opened Records
  import opened DeviceDb
  import opened DeviceDbProofs
  import opened DeviceDbLatest

  // ----- A directory that can be read -----

  ghost function Listing(s: set<string>): seq<string>
    decreases |s|
  {
    if s == {} then []
    else
      var x :| x in s;
      [x] + Listing(s - {x})
  }

  lemma {:induction false} ListingLists(s: set<string>)
    ensures Permutes(Listing(s), s)
    decreases |s|
  {
    if s != {} {
      var l := Listing(s);
      assert l[0] in s && l == [l[0]] + Listing(s - {l[0]});
      ListingLists(s - {l[0]});
    }
  }

  ghost const READDIR: Readdir := (k, s) => Listing(s)

  lemma ReaddirLists()
    ensures Lists(READDIR)
  {
    forall k: nat, s: set<string>
      ensures Permutes(READDIR(k, s), s)
    {
      ListingLists(s);
    }
  }

  const IS_NODE: string -> bool := s => s != "l"

  function Claimant(name: string, priority: int, ignoreRemove: bool): Device {
    Device(name, ["l"], Devt(8, 0), priority, 0, ignoreRemove, [])
  }

  lemma ClaimantIsWellFormed(name: string, priority: int, ignoreRemove: bool)
    requires IsInt(priority) && (name == "a" || name == "b")
    ensures WellFormed(Claimant(name, priority, ignoreRemove))
  {
  }

  lemma ClaimantIsProper(name: string, priority: int, ignoreRemove: bool)
    requires IsInt(priority) && (name == "a" || name == "b")
    ensures Proper(Claimant(name, priority, ignoreRemove), IS_NODE)
    ensures Load(Save(Claimant(name, priority, ignoreRemove))) == Some(Claimant(name, ReadBack(priority), ignoreRemove))
  {
    ClaimantIsWellFormed(name, priority, ignoreRemove);
    LoadOfSave(Claimant(name, priority, ignoreRemove));
    hide WellFormed, Load, Save;
    ReadBackIff(0);
  }

  /** The event that claims the link. */
  ghost function Claiming(devpath: string, name: string, priority: int, ignoreRemove: bool): Event {
    Add(devpath, Claimant(name, priority, ignoreRemove), false, READDIR)
  }

  lemma ClaimingIsLegal(devpath: string, name: string, priority: int, ignoreRemove: bool)
    requires IsInt(priority) && (name == "a" || name == "b")
    ensures Legal(Claiming(devpath, name, priority, ignoreRemove), IS_NODE)
  {
    ReaddirLists();
    ClaimantIsProper(name, priority, ignoreRemove);
    hide Proper, Lists;
  }

  // ----- Priorities -----

  /** Tidy events none of whose priorities is negative but perhaps p. */
  ghost predicate UsesPriority(events: seq<Event>, isNode: string -> bool, p: int) {
    forall i | 0 <= i < |events| ::
      && Legal(events[i], isNode) && Tidy(Run(events[..i]), events[i], isNode)
      && (events[i].Add? ==> events[i].device.priority >= 0 || events[i].device.priority == p)
  }

  ghost predicate KeepsLinks(p: int) {
    forall events, isNode, s | UsesPriority(events, isNode, p) && !isNode(s) :: AsDeclared(events, Run(events).dev, s)
  }

  /** Device a claims the link with priority p, then device b with priority 0. */
  ghost function Rivals(p: int): seq<Event> {
    [Claiming("/a", "a", p, false), Claiming("/b", "b", 0, false)]
  }

  lemma LatestOfRivals(p: int, d: string)
    ensures Latest(Rivals(p), d) ==
      if d == "/a" then Some(Claimant("a", p, false)) else if d == "/b" then Some(Claimant("b", 0, false)) else None
  {
    var events := Rivals(p);
    assert events[..1] == [events[0]] && events[..1][..0] == [];
    assert Latest([], d) == None;
    assert Latest(events[..1], d) == if d == "/a" then Some(Claimant("a", p, false)) else None;
  }

  lemma RivalsAreLegal(p: int)
    requires IsInt(p)
    ensures UsesPriority(Rivals(p), IS_NODE, p)
    ensures forall i | 0 <= i < |Rivals(p)| :: Legal(Rivals(p)[i], IS_NODE)
  {
    ClaimingIsLegal("/a", "a", p, false);
    ClaimingIsLegal("/b", "b", 0, false);
    hide Legal, Kept, TakesAway, Run;
  }

  /** The link of the rivals is right as far as the records tell. */
  lemma RivalsLinkIsRight(p: int)
    requires IsInt(p)
    ensures var st := Run(Rivals(p)); LinkRight(st.records, st.dev, "l", true)
  {
    var events := Rivals(p);
    RivalsAreLegal(p);
    RunIsSound(events[..1], IS_NODE);
    assert Legal(events[1], IS_NODE) && Ranked(events[1].device);
    hide Sound, Lists, Proper, AddDevice, LinkRight, LinksRight, Legal, UsesPriority;
    assert Run(events) == Next(Run(events[..1]), events[1]);
    hide Run;
    AddKeepsLinks(Run(events[..1]), "/b", Claimant("b", 0, false), READDIR, IS_NODE, true);
  }

  predicate Rival(d: string) {
    d == "/a" || d == "/b"
  }

  lemma HigherRecordWins(records: map<string, DbFile>, dev: map<string, Entry>)
    requires LinkRight(records, dev, "l", true)
    requires forall d :: Claims(records, "l", d) <==> Rival(d)
    requires Stored(records, "/a").Some? && Stored(records, "/b").Some? && Stored(records, "/a").value.name == "a"
    requires Stored(records, "/a").value.priority > Stored(records, "/b").value.priority
    ensures "l" in dev && dev["l"] == Link("a")
  {
    hide Stored, Claims;
    assert Claims(records, "l", "/a");
    var w :| LeadsTo(records, dev, "l", w, true);
    assert Rival(w);
  }

  lemma LowerIsNotDeclared(events: seq<Event>, dev: map<string, Entry>)
    requires "l" in dev && dev["l"] == Link("a")
    requires forall d :: Declares(events, d, "l") <==> Rival(d)
    requires Latest(events, "/a").Some? && Latest(events, "/b").Some?
    requires Latest(events, "/a").value.priority < Latest(events, "/b").value.priority
    requires Latest(events, "/b").value.name != "a"
    ensures !AsDeclared(events, dev, "l")
  {
    hide Latest, Declares;
    assert Declares(events, "/b", "l");
    assert forall d | TopDeclares(events, d, "l") :: Rival(d) && d != "/a";
  }

  /** A priority that is not read back as it was stored puts the link on the lower claimant. */
  lemma LostPriorityMisleads(p: int)
    requires IsInt(p) && ReadBack(p) != p
    ensures UsesPriority(Rivals(p), IS_NODE, p)
    ensures "l" in Run(Rivals(p)).dev && Run(Rivals(p)).dev["l"] == Link("a") && p < 0
    ensures !AsDeclared(Rivals(p), Run(Rivals(p)).dev, "l")
  {
    var events := Rivals(p);
    ReadBackIff(p);
    RivalsAreLegal(p);
    RivalsLinkIsRight(p);
    LatestOfRivals(p, "/a");
    LatestOfRivals(p, "/b");
    LegalIsReadable(events, IS_NODE);
    hide *;
    forall d
      ensures Declares(events, d, "l") <==> Rival(d)
      ensures Claims(Run(events).records, "l", d) <==> Rival(d)
    {
      RivalsDeclare(p, d);
      NamesFollowEvents(events, "l", d);
    }
    RivalsAreStored(p);
    HigherRecordWins(Run(events).records, Run(events).dev);
    RivalsDeclare(p, "/a");
    LowerIsNotDeclared(events, Run(events).dev);
  }

  lemma RivalsDeclare(p: int, d: string)
    ensures Declares(Rivals(p), d, "l") <==> Rival(d)
    ensures Latest(Rivals(p), "/a").Some? && Latest(Rivals(p), "/b").Some?
    ensures Latest(Rivals(p), "/a").value.priority == p && Latest(Rivals(p), "/b").value.priority == 0
    ensures Latest(Rivals(p), "/b").value.name != "a"
  {
    LatestOfRivals(p, d);
    LatestOfRivals(p, "/a");
    LatestOfRivals(p, "/b");
    hide Latest, Rivals;
  }

  lemma RivalsAreStored(p: int)
    requires IsInt(p) && ReadBack(p) != p
    ensures var records := Run(Rivals(p)).records;
      && Stored(records, "/a").Some? && Stored(records, "/a").value.name == "a"
      && Stored(records, "/b").Some?
      && Stored(records, "/a").value.priority > Stored(records, "/b").value.priority
  {
    RecordsTellTheLatest(Rivals(p), "/a");
    RecordsTellTheLatest(Rivals(p), "/b");
    LatestOfRivals(p, "/a");
    LatestOfRivals(p, "/b");
    ClaimantIsProper("a", p, false);
    ClaimantIsProper("b", 0, false);
    ReadBackIff(p);
    hide *;
  }

  lemma PrioritiesAreRanked(ev: Event, isNode: string -> bool, p: int)
    requires Legal(ev, isNode) && (ev.Add? ==> ev.device.priority >= 0 || ev.device.priority == p)
    requires ReadBack(p) == p
    ensures RankedEvent(ev)
  {
    if ev.Add? && IsInt(ev.device.priority) {
      ReadBackIff(ev.device.priority);
    }
  }

  /** Links follow the events, over all runs in which p is the only priority below zero, exactly if
      p is read back as it was stored. */
  lemma LinksFollowEventsIff(p: int)
    requires IsInt(p)
    ensures KeepsLinks(p) <==> p >= 0 || WideLong()
  {
    ReadBackIff(p);
    if ReadBack(p) != p {
      LostPriorityMisleads(p);
      assert !IS_NODE("l");
    } else {
      forall events, isNode, s | UsesPriority(events, isNode, p) && !isNode(s)
        ensures AsDeclared(events, Run(events).dev, s)
      {
        forall i | 0 <= i < |events|
          ensures RankedEvent(events[i])
        {
          PrioritiesAreRanked(events[i], isNode, p);
        }
        hide Legal, Tidy, RankedEvent, AsDeclared;
        LinksFollowEvents(events, isNode, s);
      }
    }
  }

  // ----- Ignored removals and renames -----

  /** Device a alone, with a link, and perhaps with the option to ignore its removal. */
  ghost function Alone(ignoreRemove: bool): seq<Event> {
    [Claiming("/a", "a", 0, ignoreRemove)]
  }

  lemma AloneIsStored(ignoreRemove: bool, d: string)
    ensures Stored(Run(Alone(ignoreRemove)).records, d) == if d == "/a" then Some(Claimant("a", 0, ignoreRemove)) else None
  {
    RecordsTellTheLatest(Alone(ignoreRemove), d);
    ClaimantIsProper("a", 0, ignoreRemove);
    ReadBackIff(0);
    assert Alone(ignoreRemove)[..0] == [] && Latest([], d) == None;
    hide Run, Proper, Stored, Load, Save;
  }

  lemma AloneIsLinked(ignoreRemove: bool)
    ensures var st := Run(Alone(ignoreRemove));
      Sound(st, IS_NODE) && "l" in st.dev && st.dev["l"] == Link("a")
  {
    var events := Alone(ignoreRemove);
    var st := Run(events);
    ClaimingIsLegal("/a", "a", 0, ignoreRemove);
    ReadBackIff(0);
    forall d
      ensures Stored(st.records, d) == if d == "/a" then Some(Claimant("a", 0, ignoreRemove)) else None
    {
      AloneIsStored(ignoreRemove, d);
    }
    hide Legal, Run, Stored, Sound, Kept, ReadBack;
    RunIsSound(events, IS_NODE);
    LinksAlwaysRight(events, IS_NODE, true);
    assert LinkRight(st.records, st.dev, "l", true);
    hide *;
    OnlyClaimantWins(st, ignoreRemove);
  }

  lemma OnlyClaimantWins(st: State, ignoreRemove: bool)
    requires forall d :: Stored(st.records, d) == if d == "/a" then Some(Claimant("a", 0, ignoreRemove)) else None
    requires LinkRight(st.records, st.dev, "l", true)
    ensures "l" in st.dev && st.dev["l"] == Link("a")
  {
    hide Stored;
    assert Claims(st.records, "l", "/a");
    var w :| LeadsTo(st.records, st.dev, "l", w, true);
  }

  lemma KeptRemovalIs(st: State, devpath: string, kernel: string, devt: Devt, ignored: bool, ls: Readdir)
    requires Stored(st.records, devpath).Some? && Stored(st.records, devpath).value.ignoreRemove
    ensures var r := RemoveDevice(st, devpath, kernel, devt, ignored, ls);
      r.dev == st.dev && r.records == st.records - {devpath}
  {
    hide Load;
  }

  ghost function KeptRun(): seq<Event> {
    Alone(true) + [Remove("/a", "a", Devt(8, 0), false, READDIR)]
  }

  lemma KeptRunForgets(d: string)
    ensures Latest(KeptRun(), d) == None
  {
    var events := KeptRun();
    assert events[..1] == Alone(true) && events[..1][..0] == [];
    assert Latest([], d) == None;
  }

  lemma KeptRunIsLegal()
    ensures forall i | 0 <= i < |KeptRun()| :: Legal(KeptRun()[i], IS_NODE)
  {
    ReaddirLists();
    ClaimingIsLegal("/a", "a", 0, true);
    assert Legal(Remove("/a", "a", Devt(8, 0), false, READDIR), IS_NODE);
    hide Legal;
  }

  lemma KeptRunEnds()
    ensures var st, r := Run(Alone(true)), Run(KeptRun());
      r.dev == st.dev && r.records == st.records - {"/a"}
  {
    var st := Run(Alone(true));
    AloneIsStored(true, "/a");
    assert KeptRun()[..1] == Alone(true);
    KeptRemovalIs(st, "/a", "a", Devt(8, 0), false, READDIR);
    assert Run(KeptRun()) == RemoveDevice(st, "/a", "a", Devt(8, 0), false, READDIR);
    hide Run, RemoveDevice;
  }

  /** Removing a device with the option to ignore that leaves its link behind, although no device
      has the link any more. */
  lemma KeptRemovalLeavesLink()
    ensures var events := KeptRun();
      && (forall i | 0 <= i < |events| :: Legal(events[i], IS_NODE))
      && Run(events).records == map[] && "l" in Run(events).dev
      && !AsDeclared(events, Run(events).dev, "l")
  {
    var events, st := KeptRun(), Run(Alone(true));
    AloneIsLinked(true);
    AloneIsStored(true, "/a");
    KeptRunEnds();
    OnlyStored(st);
    hide *;
    KeptRunIsLegal();
    assert st.records - {"/a"} == map[] by {
      forall d | d in st.records
        ensures d == "/a"
      {
        AloneIsStored(true, d);
      }
    }
    forall d
      ensures !Declares(events, d, "l")
    {
      KeptRunForgets(d);
    }
  }

  /** A sound database stores no file that cannot be read. */
  lemma OnlyStored(st: State)
    requires Sound(st, IS_NODE)
    ensures forall d | d in st.records :: Stored(st.records, d).Some?
  {
  }

  /** After a rename the device is not found by its name any more. */
  lemma RenamedDeviceIsNotFound()
    ensures var r := DbRename(Run(Alone(false)), "/a", "/c");
      && Stored(r.records, "/c").Some? && Stored(r.records, "/c").value.name == "a"
      && DevicesByName(r.index, "a") == {"/a"} && Stored(r.records, "/a").None?
  {
    var st := Run(Alone(false));
    AloneIsStored(false, "/a");
    AloneIsLinked(false);
    NamesFollowAlone();
    var r := DbRename(st, "/a", "/c");
    assert Stored(st.records, "/a") == Some(Claimant("a", 0, false));
    assert r.records["/c"] == st.records["/a"];
    hide Run, Sound, Load;
    forall d
      ensures d in DevicesByName(st.index, "a") <==> d == "/a"
    {
      assert d in DevicesByName(st.index, "a") <==> ("a", d) in st.index;
    }
  }

  lemma NamesFollowAlone()
    ensures forall d :: ("a", d) in Run(Alone(false)).index <==> d == "/a"
  {
    ClaimingIsLegal("/a", "a", 0, false);
    LegalIsReadable(Alone(false), IS_NODE);
    hide Run, Legal, Readable;
    forall d
      ensures ("a", d) in Run(Alone(false)).index <==> d == "/a"
    {
      NamesFollowEvents(Alone(false), "a", d);
      assert Alone(false)[..0] == [] && Latest([], d) == None;
    }
  }

  // ----- Removals under the kernel's name -----

  /** Device a with the link l, and then a removal that comes with the kernel's name l. */
  ghost function ThenRemoved(devpath: string): seq<Event> {
    Alone(false) + [Remove(devpath, "l", Devt(8, 0), false, READDIR)]
  }

  lemma ThenRemovedIsLegal(devpath: string)
    ensures var events := ThenRemoved(devpath);
      && events[..0] == [] && events[..1] == Alone(false)
      && forall i | 0 <= i < |events| :: Legal(events[i], IS_NODE) && RankedEvent(events[i])
  {
    ReaddirLists();
    ClaimingIsLegal("/a", "a", 0, false);
    ReadBackIff(0);
    hide Proper, Lists;
  }

  lemma LatestOfRemoved(devpath: string, d: string)
    ensures Latest(ThenRemoved(devpath), d) == if d == "/a" && d != devpath then Some(Claimant("a", 0, false)) else None
  {
    var events := ThenRemoved(devpath);
    assert events[..1] == Alone(false) && events[..1][..0] == [];
    assert Latest([], d) == None;
  }

  /** Neither the addition nor the removal is untidy. */
  lemma ThenRemovedIsTidy()
    ensures Tidy(INIT, ThenRemoved("/a")[0], IS_NODE)
    ensures Tidy(Run(Alone(false)), ThenRemoved("/a")[1], IS_NODE)
  {
    AloneIsStored(false, "/a");
    hide Run, Load;
  }

  /** A device whose node has a name of its own and one of whose links is the kernel's name, as the
      rules make joysticks, goes with its link. */
  lemma KernelNameAsLink()
    ensures var events := ThenRemoved("/a");
      && (forall i | 0 <= i < |events| :: Legal(events[i], IS_NODE) && Tidy(Run(events[..i]), events[i], IS_NODE))
      && "l" in Run(events[..1]).dev && "l" !in Run(events).dev
  {
    var events := ThenRemoved("/a");
    ThenRemovedIsLegal("/a");
    ThenRemovedIsTidy();
    AloneIsLinked(false);
    assert Run([]) == INIT;
    hide *;
    LinksFollowEvents(events, IS_NODE, "l");
    forall d
      ensures !Declares(events, d, "l")
    {
      LatestOfRemoved("/a", d);
    }
  }

  /** The removal of a device that is not in the database takes the link away that another device has
      under the name. */
  lemma StrangerTakesLink()
    ensures var events := ThenRemoved("/l");
      && (forall i | 0 <= i < |events| :: Legal(events[i], IS_NODE) && !KeptEvent(Run(events[..i]), events[i]))
      && TakesLink(Run(events[..1]), events[1], IS_NODE)
      && "l" !in Run(events).dev && !AsDeclared(events, Run(events).dev, "l")
  {
    var events := ThenRemoved("/l");
    ThenRemovedIsLegal("/l");
    StrangerComes();
    StrangerRunEnds();
    assert Run([]) == INIT && !KeptEvent(INIT, events[0]);
    hide *;
    assert Declares(events, "/a", "l") by { LatestOfRemoved("/l", "/a"); }
    UnlinkedIsNotDeclared(events, Run(events).dev, "/a", "l");
  }

  lemma UnlinkedIsNotDeclared(events: seq<Event>, dev: map<string, Entry>, d: string, s: string)
    requires Declares(events, d, s) && s !in dev
    ensures !AsDeclared(events, dev, s)
  {
    hide Declares;
  }

  /** The link is there and leads to a node of the number that the event gives. */
  lemma StrangerComes()
    ensures var st := Run(Alone(false));
      && TakesAway(st, "/l", "l", Devt(8, 0), false)
      && TakesLink(st, ThenRemoved("/l")[1], IS_NODE) && !KeptEvent(st, ThenRemoved("/l")[1])
  {
    AloneIsLinked(false);
    AloneHasNode();
    AloneIsStored(false, "/l");
    hide Run, Load, Sound, Stored;
  }

  lemma StrangerRunEnds()
    ensures "l" !in Run(ThenRemoved("/l")).dev
  {
    var events, st := ThenRemoved("/l"), Run(Alone(false));
    assert events[..|events|-1] == Alone(false);
    assert Run(events) == Next(st, events[1]);
    hide Run;
    StrangerComes();
    StrangerRemoval(st, "/l", "l", Devt(8, 0), false, READDIR);
    hide TakesAway, RemoveDevice;
  }

  lemma AloneHasNode()
    ensures var dev := Run(Alone(false)).dev; "a" in dev && dev["a"] == Node(Devt(8, 0))
  {
    var u := Claimant("a", 0, false);
    var st2 := Stocked(INIT, "/a", u);
    assert Alone(false)[..0] == [];
    assert Run(Alone(false)) == AddDevice(INIT, "/a", u, READDIR);
    hide Run, Save, Load;
    UpdateLinksFrame(st2, "/a", u, NamesToUpdate(u, Stored(INIT.records, "/a")), READDIR, 0, IS_NODE);
  }
}
