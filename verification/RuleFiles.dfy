/** The list of rules files: files of a directory in name order, with the files of the dynamic
    directory merged in by base name. */
module RuleFiles {
  import opened CStrings
  import opened NameList

  // ----- Base names -----

  /** strrchr(name, '/'): the last slash and what follows. */
  function Base(name: string): Option<string> {
    if name == "" then None
    else if Base(name[1..]).Some? then Base(name[1..])
    else if name[0] == '/' then Some(name)
    else None
  }

  lemma {:induction false} BaseOfPath(dir: string, file: string)
    requires '/' !in file
    ensures Base(dir + "/" + file) == Some("/" + file)
  {
    if dir == "" {
      assert dir + "/" + file == "/" + file && ("/" + file)[1..] == file;
      NoBase(file);
    } else {
      assert (dir + "/" + file)[1..] == dir[1..] + "/" + file;
      BaseOfPath(dir[1..], file);
    }
  }

  lemma {:induction false} NoBase(file: string)
    requires '/' !in file
    ensures Base(file).None?
  {
    if file != "" {
      NoBase(file[1..]);
    }
  }

  lemma {:induction false} LessAfterPrefix(prefix: string, a: string, b: string)
    ensures Less(prefix + a, prefix + b) <==> Less(a, b)
  {
    if prefix == "" {
      assert prefix + a == a && prefix + b == b;
    } else {
      assert (prefix + a)[1..] == prefix[1..] + a && (prefix + b)[1..] == prefix[1..] + b;
      LessAfterPrefix(prefix[1..], a, b);
    }
  }

  // ----- Merging -----

  /** A dynamic file goes before the first file of a greater base name. */
  function Slot(names: seq<string>, base: string): (i: nat)
    ensures i <= |names|
    ensures forall j | 0 <= j < i :: Base(names[j]).Some? ==> !Less(base, Base(names[j]).value)
    ensures i < |names| ==> Base(names[i]).Some? && Less(base, Base(names[i]).value)
  {
    if names == [] || (Base(names[0]).Some? && Less(base, Base(names[0]).value)) then 0 else 1 + Slot(names[1..], base)
  }

  function MergeOne(names: seq<string>, dyn: string): seq<string> {
    match Base(dyn)
    case None => names
    case Some(base) => var i := Slot(names, base); names[..i] + [dyn] + names[i..]
  }

  function Merge(names: seq<string>, dyns: seq<string>): seq<string> {
    if dyns == [] then names else MergeOne(Merge(names, dyns[..|dyns|-1]), dyns[|dyns|-1])
  }

  // ----- What the merge yields -----

  predicate HasBase(name: string) {
    Base(name).Some?
  }

  /** The base name of a is smaller. */
  predicate BaseLess(a: string, b: string) {
    HasBase(a) && HasBase(b) && Less(Base(a).value, Base(b).value)
  }

  ghost predicate HaveBase(names: seq<string>) {
    forall i | 0 <= i < |names| :: HasBase(names[i])
  }

  ghost predicate SortedByBase(names: seq<string>) {
    HaveBase(names) && forall i, j | 0 <= i < j < |names| :: !BaseLess(names[j], names[i])
  }

  /** A dynamic file stands before a file of the main directory only if its base name is smaller. */
  ghost predicate MainFirst(names: seq<string>, main: set<string>) {
    forall i, j | 0 <= i < j < |names| && names[i] !in main && names[j] in main :: BaseLess(names[i], names[j])
  }

  lemma InsertAtSlot(names: seq<string>, dyn: string, main: set<string>)
    requires SortedByBase(names) && HasBase(dyn) && MainFirst(names, main) && dyn !in main
    ensures SortedByBase(MergeOne(names, dyn)) && MainFirst(MergeOne(names, dyn), main)
    ensures multiset(MergeOne(names, dyn)) == multiset(names) + multiset{dyn}
  {
    SlotDivides(names, dyn);
    hide Base, BaseLess;
    var i := Slot(names, Base(dyn).value);
    SortedInsert(names, i, dyn, main);
    assert names == names[..i] + names[i..];
  }

  lemma BaseLessIsStrict(a: string, b: string, c: string)
    ensures BaseLess(a, b) ==> !BaseLess(b, a)
    ensures BaseLess(a, b) && HasBase(c) && !BaseLess(c, b) ==> BaseLess(a, c)
  {
    if BaseLess(a, b) {
      var x, y := Base(a).value, Base(b).value;
      if BaseLess(b, a) {
        LessIsTransitive(x, y, x);
        LessIsIrreflexive(x);
      }
      if HasBase(c) && !BaseLess(c, b) {
        LessIsTotal(y, Base(c).value);
        if y != Base(c).value {
          LessIsTransitive(x, y, Base(c).value);
        }
      }
    }
  }

  /** On a sorted list the slot divides the names that are not greater from the greater ones. */
  lemma SlotDivides(names: seq<string>, dyn: string)
    requires SortedByBase(names) && HasBase(dyn)
    ensures var i := Slot(names, Base(dyn).value);
      && (forall j | 0 <= j < i :: !BaseLess(dyn, names[j]))
      && (forall j | i <= j < |names| :: BaseLess(dyn, names[j]))
  {
    hide Less;
    var i := Slot(names, Base(dyn).value);
    forall j | i < j < |names|
      ensures BaseLess(dyn, names[j])
    {
      BaseLessIsStrict(dyn, names[i], names[j]);
    }
  }

  lemma SortedInsert(names: seq<string>, i: nat, dyn: string, main: set<string>)
    requires SortedByBase(names) && HasBase(dyn) && MainFirst(names, main) && dyn !in main && i <= |names|
    requires forall j | 0 <= j < i :: !BaseLess(dyn, names[j])
    requires forall j | i <= j < |names| :: BaseLess(dyn, names[j])
    ensures SortedByBase(names[..i] + [dyn] + names[i..])
    ensures MainFirst(names[..i] + [dyn] + names[i..], main)
  {
    forall j | i <= j < |names|
      ensures !BaseLess(names[j], dyn)
    {
      BaseLessIsStrict(dyn, names[j], dyn);
    }
    hide BaseLess, HasBase;
  }

  /** The merged list holds exactly both lists, sorted by base name, with a file of the main
      directory ahead of a dynamic one of the same base name. */
  lemma {:induction false} MergeIsSorted(names: seq<string>, dyns: seq<string>, main: set<string>)
    requires SortedByBase(names) && HaveBase(dyns)
    requires forall n | n in names :: n in main
    requires forall d | d in dyns :: d !in main
    ensures SortedByBase(Merge(names, dyns))
    ensures multiset(Merge(names, dyns)) == multiset(names) + multiset(dyns)
    ensures MainFirst(Merge(names, dyns), main)
  {
    hide BaseLess, HasBase, MergeOne;
    if dyns == [] {
    } else {
      var n := |dyns| - 1;
      MergeIsSorted(names, dyns[..n], main);
      assert dyns == dyns[..n] + [dyns[n]];
      assert multiset(dyns) == multiset(dyns[..n]) + multiset{dyns[n]};
      hide SortedByBase, MainFirst;
      InsertAtSlot(Merge(names, dyns[..n]), dyns[n], main);
    }
  }

  // ----- The files of one directory -----

  /** add_matching_files: the paths in the order read, added to a sorted list. */
  function Listed(dir: string, files: seq<string>): seq<string> {
    if files == [] then []
    else Add(Listed(dir, files[..|files|-1]), dir + "/" + files[|files|-1], true)
  }

  lemma {:induction false} ListedIsSorted(dir: string, files: seq<string>)
    ensures SortedNames(Listed(dir, files)) && NoDuplicates(Listed(dir, files))
    ensures forall x :: x in Listed(dir, files) <==> exists f :: f in files && x == dir + "/" + f
  {
    hide Less;
    if files != [] {
      var n := |files| - 1;
      ListedIsSorted(dir, files[..n]);
      assert files == files[..n] + [files[n]];
      AddKeepsSorted(Listed(dir, files[..n]), dir + "/" + files[n]);
      AddKeepsSet(Listed(dir, files[..n]), dir + "/" + files[n], true);
    }
  }

  /** In one directory the order of paths is the order of base names. */
  lemma ListedByBase(dir: string, files: seq<string>)
    requires forall f | f in files :: '/' !in f
    ensures SortedByBase(Listed(dir, files))
  {
    ListedIsSorted(dir, files);
    var names := Listed(dir, files);
    hide Listed, Less, BaseLess, HasBase;
    forall i | 0 <= i < |names|
      ensures HasBase(names[i])
    {
      assert names[i] in names;
      var f :| f in files && names[i] == dir + "/" + f;
      SortedPair(dir, f, f);
    }
    forall i, j | 0 <= i < j < |names|
      ensures !BaseLess(names[j], names[i])
    {
      assert names[i] in names && names[j] in names;
      var f :| f in files && names[i] == dir + "/" + f;
      var g :| g in files && names[j] == dir + "/" + g;
      SortedPair(dir, f, g);
    }
  }

  lemma SortedPair(dir: string, f: string, g: string)
    requires '/' !in f && '/' !in g
    ensures HasBase(dir + "/" + f)
    ensures Less(dir + "/" + f, dir + "/" + g) ==> !BaseLess(dir + "/" + g, dir + "/" + f)
  {
    BaseOfPath(dir, f);
    BaseOfPath(dir, g);
    assert dir + "/" + f == dir + ("/" + f) && dir + "/" + g == dir + ("/" + g);
    LessAfterPrefix(dir, "/" + f, "/" + g);
    if Less("/" + f, "/" + g) && Less("/" + g, "/" + f) {
      LessIsTransitive("/" + f, "/" + g, "/" + f);
      LessIsIrreflexive("/" + f);
    }
  }

  /** Whatever order the two directories are read in, the rules files are processed sorted by
      base name, each once, those of the main directory ahead of dynamic ones of the same name. */
  lemma RuleFilesAreOrdered(mainDir: string, mainFiles: seq<string>, dynDir: string, dynFiles: seq<string>)
    requires forall f | f in mainFiles :: '/' !in f
    requires forall f | f in dynFiles :: '/' !in f
    requires forall f, g | f in mainFiles && g in dynFiles :: mainDir + "/" + f != dynDir + "/" + g
    ensures var main, dyn := Listed(mainDir, mainFiles), Listed(dynDir, dynFiles);
      var all := Merge(main, dyn);
      && SortedByBase(all)
      && multiset(all) == multiset(main) + multiset(dyn)
      && MainFirst(all, set n | n in main)
  {
    ListedByBase(mainDir, mainFiles);
    ListedByBase(dynDir, dynFiles);
    ListedIsSorted(mainDir, mainFiles);
    ListedIsSorted(dynDir, dynFiles);
    var main, dyn := Listed(mainDir, mainFiles), Listed(dynDir, dynFiles);
    MergeIsSorted(main, dyn, set n | n in main);
  }
}
