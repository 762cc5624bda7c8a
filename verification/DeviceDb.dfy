/** The device database, its reverse index from names to devices, and the /dev directory
    they drive; with what each device event does to them. */
module DeviceDb {
  import opened CStrings
  import opened Records

  /** An entry of /dev. A link is kept by the node name it leads to. */
  datatype Entry = Node(devt: Devt) | Link(target: string)

  /** records: device path to database file; index: pairs of a name and a device path;
      dev: name to entry. */
  datatype State = State(
    records: map<string, DbFile>, index: set<(string, string)>, dev: map<string, Entry>)

  const INIT := State(map[], {}, map[])

  /** The order in which reading a directory yields its entries: it may depend on when the
      directory is read as well as on what it holds. */
  type Readdir = (nat, set<string>) -> seq<string>

  ghost predicate Lists(ls: Readdir) {
    forall k, s :: Permutes(ls(k, s), s)
  }

  ghost predicate Permutes(order: seq<string>, s: set<string>) {
    && (forall d :: d in order <==> d in s)
    && (forall i, j | 0 <= i < j < |order| :: order[i] != order[j])
  }

  /** What happens to a device with a device number. For Add (which also stands for change)
      the device is what the rules made of it. */
  datatype Event =
    | Add(devpath: string, device: Device, ignored: bool, ls: Readdir)
    | Remove(devpath: string, kernel: string, devt: Devt, ignored: bool, ls: Readdir)

  // ----- Database and index -----

  function Stored(records: map<string, DbFile>, devpath: string): Option<Device> {
    if devpath in records then Load(records[devpath]) else None
  }

  /** All names a device is known by: its node and its links. */
  function Names(u: Device): set<string> {
    {u.name} + set s | s in u.symlinks
  }

  function Pairs(names: set<string>, devpath: string): set<(string, string)> {
    set n | n in names :: (n, devpath)
  }

  function Entries(u: Device, devpath: string): set<(string, string)> {
    Pairs(Names(u), devpath)
  }

  function DbAdd(st: State, devpath: string, u: Device): State {
    st.(records := st.records[devpath := Save(u)], index := st.index + Entries(u, devpath))
  }

  function DbDelete(st: State, devpath: string, u: Device): State {
    st.(records := st.records - {devpath}, index := st.index - Entries(u, devpath))
  }

  function DbRename(st: State, devpathOld: string, devpath: string): State {
    if devpathOld in st.records
    then st.(records := (st.records - {devpathOld})[devpath := st.records[devpathOld]])
    else st
  }

  function DevicesByName(index: set<(string, string)>, name: string): set<string> {
    set e | e in index && e.0 == name :: e.1
  }

  // ----- Links -----

  datatype Claim = Claim(target: string, priority: int)

  /** What device d bids for a name while the device at devpath, known as u, is handled. */
  function ClaimOf(records: map<string, DbFile>, devpath: string, u: Device, name: string, d: string): Option<Claim> {
    if d == devpath then
      if u.name == name then None else Some(Claim(u.name, u.priority))
    else
      match Stored(records, d)
      case None => None
      case Some(v) => if v.name == name then None else Some(Claim(v.name, v.priority))
  }

  /** The better of the best claim so far and the next one: our own wins ties. */
  function Better(best: Option<Claim>, next: Option<Claim>, own: bool): Option<Claim> {
    if next.None? then best
    else if best.None? then next
    else if next.value.priority > best.value.priority || (own && next.value.priority == best.value.priority) then next
    else best
  }

  /** The best claim among the devices in the order they are read. */
  function Pick(records: map<string, DbFile>, devpath: string, u: Device, name: string, order: seq<string>): Option<Claim> {
    if order == [] then None
    else
      var n := |order| - 1;
      Better(Pick(records, devpath, u, name, order[..n]),
             ClaimOf(records, devpath, u, name, order[n]), order[n] == devpath)
  }

  /** Point a link at a node, unless the node of another device stands in its place. */
  function NodeSymlink(dev: map<string, Entry>, node: string, slink: string): map<string, Entry> {
    if slink in dev && dev[slink].Node? && node in dev && dev[node] != dev[slink] then dev
    else dev[slink := Link(node)]
  }

  function UpdateLink(st: State, devpath: string, u: Device, name: string, ls: Readdir, k: nat): State {
    var devices := DevicesByName(st.index, name);
    if devices == {} then st.(dev := st.dev - {name})
    else
      match Pick(st.records, devpath, u, name, ls(k, devices))
      case None => st
      case Some(best) => st.(dev := NodeSymlink(st.dev, best.target, name))
  }

  function UpdateLinks(st: State, devpath: string, u: Device, names: seq<string>, ls: Readdir, k: nat): State
    decreases |names|
  {
    if names == [] then st
    else UpdateLinks(UpdateLink(st, devpath, u, names[0], ls, k), devpath, u, names[1..], ls, k + 1)
  }

  function Without(names: seq<string>, others: seq<string>): (r: seq<string>)
    ensures forall x :: x in r <==> x in names && x !in others
  {
    if names == [] then []
    else (if names[0] in others then [] else [names[0]]) + Without(names[1..], others)
  }

  /** The names whose links are looked at again: the current ones, those given up, and the
      former node name if it has changed. */
  function NamesToUpdate(u: Device, former: Option<Device>): seq<string> {
    match former
    case None => u.symlinks
    case Some(v) => u.symlinks + Without(v.symlinks, u.symlinks) + if u.name != v.name then [v.name] else []
  }

  // ----- Nodes -----

  function NodeAdd(st: State, u: Device): State {
    st.(dev := st.dev[u.name := Node(u.devt)])
  }

  /** The device number found by following a name in /dev. */
  function StatDevt(dev: map<string, Entry>, name: string): Option<Devt> {
    if name !in dev then None
    else match dev[name]
      case Node(devt) => Some(devt)
      case Link(t) => if t in dev && dev[t].Node? then Some(dev[t].devt) else None
  }

  function NodeRemove(st: State, u: Device): State {
    var stats := StatDevt(st.dev, u.name);
    if stats.None? || (u.devt != Devt(0, 0) && stats.value != u.devt) then st
    else st.(dev := st.dev - {u.name})
  }

  // ----- Events -----

  function AddDevice(st: State, devpath: string, u: Device, ls: Readdir): State {
    var former := Stored(st.records, devpath);
    var st1 := if former.Some? then DbDelete(st, devpath, former.value) else st;
    var st2 := DbAdd(NodeAdd(st1, u), devpath, u);
    UpdateLinks(st2, devpath, u, NamesToUpdate(u, former), ls, 0)
  }

  /** The device a remove event is about: the stored one, with the event's own device
      number if the file does not give one, or the kernel's name for it. */
  function RemovedDevice(records: map<string, DbFile>, devpath: string, kernel: string, devt: Devt): Device {
    match Stored(records, devpath)
    case Some(v) => if records[devpath].NameLink? then v.(devt := devt) else v
    case None => BLANK.(name := kernel, devt := devt)
  }

  function RemoveDevice(st: State, devpath: string, kernel: string, devt: Devt, ignored: bool, ls: Readdir): State {
    var u := RemovedDevice(st.records, devpath, kernel, devt);
    var st1 := if Stored(st.records, devpath).Some? then DbDelete(st, devpath, u) else st;
    if ignored || u.ignoreRemove then st1
    else UpdateLinks(NodeRemove(st1, u), devpath, u, u.symlinks, ls, 0)
  }

  function Next(st: State, ev: Event): State {
    match ev
    case Add(devpath, u, ignored, ls) => if ignored || u.name == "" then st else AddDevice(st, devpath, u, ls)
    case Remove(devpath, kernel, devt, ignored, ls) => RemoveDevice(st, devpath, kernel, devt, ignored, ls)
  }

  function Run(events: seq<Event>): State {
    if events == [] then INIT else Next(Run(events[..|events|-1]), events[|events|-1])
  }
}
