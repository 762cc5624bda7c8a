/** Rules packed one behind the other in one buffer: a fixed header, then the rule's strings,
    padded to a word; and the iteration and label search over them. */
module RuleBuffer {
  import opened CStrings

  type WordSize = n: nat | n == 4 || n == 8 witness 8

  /** The size of a size_t. */
  const WORD: WordSize

  datatype Operation = Unset | Match | NoMatch | AddOp | Assign | AssignFinal

  /** An operation and the offset of its value among the rule's strings. */
  datatype Key = Key(operation: Operation, valOff: nat)

  const UNSET := Key(Unset, 0)

  /** A rule: the keys evaluation works on, the options, and the strings, each ended by a NUL. An
      absent key has offset 0, an absent mode is 0. */
  datatype Rule = Rule(
    name: Key, symlink: Key, owner: Key, run: Key, labelKey: Key, gotoLabel: Key,
    lastRule: bool, ignoreDevice: bool, ignoreRemove: bool, linkPriority: int, partitions: nat,
    group: Key, mode: nat, modeOperation: Operation, runIgnoreError: bool,
    buf: string)

  const BLANK_RULE := Rule(UNSET, UNSET, UNSET, UNSET, UNSET, UNSET, false, false, false, 0, 0, UNSET, 0, Unset, false, "")

  // ----- The strings of one rule -----

  /** The C string at an offset; the empty one behind the rule's own strings. */
  function StringAt(buf: string, off: nat): (s: CString)
    decreases |buf| - off
  {
    if off >= |buf| || buf[off] == '\0' then "" else [buf[off]] + StringAt(buf, off + 1)
  }

  /** add_rule_key: store the value behind the strings there are. */
  function AddRuleKey(rule: Rule, operation: Operation, value: CString): (r: (Rule, Key))
  {
    (rule.(buf := rule.buf + value + "\0"), Key(operation, |rule.buf|))
  }

  lemma {:induction false} StringIsRead(pre: string, value: CString, k: nat, post: string)
    requires k <= |value|
    ensures StringAt(pre + value + "\0" + post, |pre| + k) == value[k..]
    decreases |value| - k
  {
    var buf := pre + value + "\0" + post;
    if k < |value| {
      assert buf[|pre| + k] == value[k];
      StringIsRead(pre, value, k + 1, post);
      assert value[k..] == [value[k]] + value[k+1..];
    } else {
      assert buf[|pre| + k] == '\0' && value[k..] == "";
    }
  }

  /** Store a list of values one after the other; their offsets in order. */
  function Store(rule: Rule, values: seq<CString>): (Rule, seq<nat>)
    decreases |values|
  {
    if values == [] then (rule, [])
    else
      var (rule1, offsets) := Store(rule, values[..|values|-1]);
      var (rule2, key) := AddRuleKey(rule1, Match, values[|values|-1]);
      (rule2, offsets + [key.valOff])
  }

  /** Every value is read back at its offset, whatever is stored behind it. */
  lemma {:induction false} StoredValuesAreRead(rule: Rule, values: seq<CString>, padding: string, i: nat)
    requires i < |values|
    ensures var (r, offsets) := Store(rule, values);
      |offsets| == |values| && StringAt(r.buf + padding, offsets[i]) == values[i]
    decreases |values|
  {
    var n := |values| - 1;
    var (rule1, offsets) := Store(rule, values[..n]);
    var (r, all) := Store(rule, values);
    if i < n {
      var more := values[n] + "\0" + padding;
      StoredValuesAreRead(rule, values[..n], more, i);
      assert r.buf + padding == rule1.buf + more;
    } else {
      StoreLength(rule, values[..n]);
      StringIsRead(rule1.buf, values[n], 0, padding);
      assert r.buf + padding == rule1.buf + values[n] + "\0" + padding;
    }
  }

  lemma {:induction false} StoreLength(rule: Rule, values: seq<CString>)
    ensures |Store(rule, values).1| == |values|
    decreases |values|
  {
    if values != [] {
      StoreLength(rule, values[..|values|-1]);
    }
  }

  // ----- The buffer of all rules -----

  /** What stands in front of a rule's strings: its keys and options, and the size of the strings. */
  datatype Header = Header(keys: Rule, bufsize: nat)

  /** A byte of the buffer: one of a header, or a character. */
  datatype Cell = Head(header: Header, k: nat) | Char(c: char)

  type Positive = n: nat | n > 0 witness 1

  /** The size of the header, and what its bytes read as characters are: whatever the compiler made
      of the structure. */
  const HEADER_SIZE: Positive

  const HEADER_CHAR: (Header, nat) -> char

  function CharOf(cell: Cell): char {
    match cell
    case Head(header, k) => HEADER_CHAR(header, k)
    case Char(c) => c
  }

  /** The remainder by the size of a word. */
  function PastWord(size: nat): (n: nat)
    ensures n < WORD
  {
    if WORD == 4 then size % 4 else size % 8
  }

  predicate Aligned(size: nat) {
    PastWord(size) == 0
  }

  lemma AlignedSum(a: nat, b: nat)
    requires Aligned(a) && Aligned(b)
    ensures Aligned(a + b)
  {
  }

  function Padding(size: nat): (n: nat)
    ensures Aligned(size + n) && n < WORD
  {
    PastWord(WORD - PastWord(size))
  }

  function Zeros(n: nat): (s: string)
    ensures |s| == n
  {
    seq(n, _ => '\0')
  }

  /** The rule as it is copied into the buffer. */
  function Padded(rule: Rule): Rule {
    rule.(buf := rule.buf + Zeros(Padding(HEADER_SIZE + |rule.buf|)))
  }

  function Size(rule: Rule): nat {
    HEADER_SIZE + |rule.buf|
  }

  /** The bytes of one rule. */
  function Image(rule: Rule): (cells: seq<Cell>)
    ensures |cells| == Size(rule)
    ensures forall k | 0 <= k < HEADER_SIZE :: cells[k] == Head(Header(rule.(buf := ""), |rule.buf|), k)
    ensures forall k | 0 <= k < |rule.buf| :: cells[HEADER_SIZE + k] == Char(rule.buf[k])
  {
    seq(HEADER_SIZE, k requires 0 <= k => Head(Header(rule.(buf := ""), |rule.buf|), k))
    + seq(|rule.buf|, k requires 0 <= k < |rule.buf| => Char(rule.buf[k]))
  }

  /** The bytes of the rules, back to back. */
  function Packed(rules: seq<Rule>): seq<Cell> {
    if rules == [] then [] else Image(rules[0]) + Packed(rules[1..])
  }

  /** The offset of the i-th rule; of the end, for i the number of rules. */
  function Offset(rules: seq<Rule>, i: nat): nat
    requires i <= |rules|
  {
    if i == 0 then 0 else Size(rules[0]) + Offset(rules[1..], i - 1)
  }

  lemma {:induction false} PackedSplit(rules: seq<Rule>, i: nat)
    requires i <= |rules|
    ensures Packed(rules) == Packed(rules[..i]) + Packed(rules[i..]) && |Packed(rules[..i])| == Offset(rules, i)
  {
    hide Image, Size;
    if i == 0 {
      assert rules[0..] == rules && rules[..0] == [];
    } else {
      PackedSplit(rules[1..], i - 1);
      assert rules[..i][1..] == rules[1..][..i-1] && rules[1..][i-1..] == rules[i..];
      Regroup(Image(rules[0]), Packed(rules[1..][..i-1]), Packed(rules[i..]));
    }
  }

  lemma Regroup(a: seq<Cell>, b: seq<Cell>, c: seq<Cell>)
    ensures a + b + c == a + (b + c)
  {
  }

  lemma PackedAppend(rules: seq<Rule>, rule: Rule)
    ensures Packed(rules + [rule]) == Packed(rules) + Image(rule)
  {
    PackedSplit(rules + [rule], |rules|);
    assert (rules + [rule])[..|rules|] == rules && (rules + [rule])[|rules|..] == [rule];
    assert Packed([rule]) == Image(rule) + Packed([]);
  }

  /** The rule that starts at an offset of the buffer. */
  function ReadRule(mem: seq<Cell>, at: nat): Option<Rule> {
    if at >= |mem| || mem[at].Char? || at + HEADER_SIZE + mem[at].header.bufsize > |mem| then None
    else Some(mem[at].header.keys.(buf := Chars(mem[at + HEADER_SIZE..][..mem[at].header.bufsize])))
  }

  function Chars(cells: seq<Cell>): (s: string)
    ensures |s| == |cells| && forall k | 0 <= k < |s| :: s[k] == CharOf(cells[k])
  {
    seq(|cells|, k requires 0 <= k < |cells| => CharOf(cells[k]))
  }

  /** The C string at an offset of the buffer, which may run on into what follows. */
  function MemString(mem: seq<Cell>, at: nat): CString
    decreases |mem| - at
  {
    if at >= |mem| || CharOf(mem[at]) == '\0' then "" else [CharOf(mem[at])] + MemString(mem, at + 1)
  }

  lemma ReadImage(rule: Rule, pre: seq<Cell>, rest: seq<Cell>)
    ensures ReadRule(pre + Image(rule) + rest, |pre|) == Some(rule)
  {
    var mem := pre + Image(rule) + rest;
    var cells := mem[|pre| + HEADER_SIZE..][..|rule.buf|];
    assert mem[|pre|] == Image(rule)[0];
    forall k | 0 <= k < |rule.buf|
      ensures cells[k] == Char(rule.buf[k])
    {
      assert cells[k] == mem[|pre| + HEADER_SIZE + k] == Image(rule)[HEADER_SIZE + k];
    }
    assert Chars(cells) == rule.buf;
  }

  /** What the iteration finds at the i-th offset. */
  lemma PackedAt(rules: seq<Rule>, i: nat)
    requires i <= |rules|
    ensures Offset(rules, |rules|) == |Packed(rules)|
    ensures Offset(rules, i) < |Packed(rules)| <==> i < |rules|
    ensures i < |rules| ==>
      ReadRule(Packed(rules), Offset(rules, i)) == Some(rules[i]) && Offset(rules, i + 1) == Offset(rules, i) + Size(rules[i])
  {
    PackedSplit(rules, i);
    PackedSplit(rules, |rules|);
    assert rules[..|rules|] == rules && rules[|rules|..] == [];
    hide ReadRule, Offset;
    if i < |rules| {
      PackedSplit(rules, i + 1);
      assert rules[..i+1] == rules[..i] + [rules[i]] && rules[i..][1..] == rules[i+1..];
      PackedAppend(rules[..i], rules[i]);
      ReadImage(rules[i], Packed(rules[..i]), Packed(rules[i+1..]));
      assert Packed(rules) == Packed(rules[..i]) + Image(rules[i]) + Packed(rules[i+1..]);
    } else {
      assert rules[i..] == [];
    }
  }

  predicate WholeWords(rules: seq<Rule>) {
    forall k | 0 <= k < |rules| :: Aligned(Size(rules[k]))
  }

  lemma {:induction false} OffsetsAreAligned(rules: seq<Rule>, i: nat)
    requires i <= |rules| && WholeWords(rules)
    ensures Aligned(Offset(rules, i))
  {
    if i > 0 {
      OffsetsAreAligned(rules[1..], i - 1);
      hide Aligned;
      AlignedSum(Size(rules[0]), Offset(rules[1..], i - 1));
    } else {
      assert Aligned(0);
    }
  }

  // ----- Labels -----

  /** The string at an offset among the strings of the i-th rule. */
  function TextAt(rules: seq<Rule>, i: nat, off: nat): CString
    requires i < |rules|
  {
    MemString(Packed(rules), Offset(rules, i) + HEADER_SIZE + off)
  }

  /** What the label search compares: the label's string, which for a rule without a label is
      the first string stored for it, or what follows if it has none. */
  function LabelText(rules: seq<Rule>, i: nat): CString
    requires i < |rules|
  {
    TextAt(rules, i, rules[i].labelKey.valOff)
  }

  /** The first rule from the i-th on whose compared string is the label, or the end. */
  function FindLabel(rules: seq<Rule>, wanted: string, i: nat): (j: nat)
    requires i <= |rules|
    ensures i <= j <= |rules|
    ensures forall k | i <= k < j :: LabelText(rules, k) != wanted
    ensures j < |rules| ==> LabelText(rules, j) == wanted
    decreases |rules| - i
  {
    if i == |rules| || LabelText(rules, i) == wanted then i else FindLabel(rules, wanted, i + 1)
  }

  predicate Carries(rules: seq<Rule>, i: nat, wanted: string)
    requires i < |rules|
  {
    rules[i].labelKey.operation != Unset && LabelText(rules, i) == wanted
  }

  /** The rule the label search should find: the first one that carries the label. */
  function FirstCarrier(rules: seq<Rule>, wanted: string, i: nat): (j: nat)
    requires i <= |rules|
    ensures i <= j <= |rules|
    ensures forall k | i <= k < j :: !Carries(rules, k, wanted)
    ensures j < |rules| ==> Carries(rules, j, wanted)
    decreases |rules| - i
  {
    if i == |rules| || Carries(rules, i, wanted) then i else FirstCarrier(rules, wanted, i + 1)
  }

  /** The search finds it exactly if no rule without a label before it has the label's text
      as its first string. */
  lemma LabelSearchIsRightIff(rules: seq<Rule>, wanted: string, i: nat)
    requires i <= |rules|
    requires forall k | 0 <= k < |rules| && rules[k].labelKey.operation == Unset :: rules[k].labelKey.valOff == 0
    ensures FindLabel(rules, wanted, i) == FirstCarrier(rules, wanted, i) <==>
              forall k | i <= k < FirstCarrier(rules, wanted, i) && rules[k].labelKey.operation == Unset ::
                TextAt(rules, k, 0) != wanted
  {
    hide TextAt;
    var f, c := FindLabel(rules, wanted, i), FirstCarrier(rules, wanted, i);
    if c < |rules| {
      assert LabelText(rules, c) == wanted;
    }
    if f < c {
      assert LabelText(rules, f) == wanted && !Carries(rules, f, wanted);
    } else {
      forall k | i <= k < c && rules[k].labelKey.operation == Unset
        ensures TextAt(rules, k, 0) != wanted
      {
        assert LabelText(rules, k) != wanted;
      }
    }
  }

  /** A string at the offset ends among the rule's own. */
  predicate Ended(buf: string, off: nat) {
    off + |StringAt(buf, off)| < |buf|
  }

  lemma {:induction false} MemStringIs(mem: seq<Cell>, at: nat, buf: string, off: nat)
    requires Ended(buf, off) && at + |buf| <= |mem|
    requires forall k | 0 <= k < |buf| :: mem[at + k] == Char(buf[k])
    ensures MemString(mem, at + off) == StringAt(buf, off)
    decreases |buf| - off
  {
    assert mem[at + off] == Char(buf[off]);
    if buf[off] != '\0' {
      MemStringIs(mem, at, buf, off + 1);
    }
  }

  /** The characters of the i-th rule stand behind its header. */
  lemma CharAtIs(rules: seq<Rule>, i: nat, k: nat)
    requires i < |rules| && k < |rules[i].buf|
    ensures var at := Offset(rules, i) + HEADER_SIZE + k;
      at < |Packed(rules)| && Packed(rules)[at] == Char(rules[i].buf[k])
  {
    PackedSplit(rules, i);
    assert Packed(rules[i..]) == Image(rules[i]) + Packed(rules[i..][1..]);
    hide Packed, Offset, Image;
    var at := Offset(rules, i);
    assert Packed(rules)[at + (HEADER_SIZE + k)] == Packed(rules[i..])[HEADER_SIZE + k] == Image(rules[i])[HEADER_SIZE + k];
  }

  /** A string that ends among the rule's own is read as it was stored. */
  lemma TextIsStored(rules: seq<Rule>, i: nat, off: nat)
    requires i < |rules| && Ended(rules[i].buf, off)
    ensures TextAt(rules, i, off) == StringAt(rules[i].buf, off)
  {
    hide Packed, Offset, Ended;
    var at := Offset(rules, i) + HEADER_SIZE;
    forall k | 0 <= k < |rules[i].buf|
      ensures at + k < |Packed(rules)| && Packed(rules)[at + k] == Char(rules[i].buf[k])
    {
      CharAtIs(rules, i, k);
    }
    EndsInside(rules[i].buf, off);
    CharAtIs(rules, i, |rules[i].buf| - 1);
    MemStringIs(Packed(rules), at, rules[i].buf, off);
  }

  lemma EndsInside(buf: string, off: nat)
    requires Ended(buf, off)
    ensures off < |buf|
  {
  }

  /** The search goes wrong for a rule KERNEL=="end" in front of LABEL="end". */
  lemma LabelSearchCanGoWrong()
    ensures var first := BLANK_RULE.(buf := "end\0");
      var second := BLANK_RULE.(labelKey := Key(Assign, 0), buf := "end\0");
      FindLabel([first, second], "end", 0) == 0 && FirstCarrier([first, second], "end", 0) == 1
  {
    var first := BLANK_RULE.(buf := "end\0");
    var second := BLANK_RULE.(labelKey := Key(Assign, 0), buf := "end\0");
    var rules := [first, second];
    assert StringAt("end\0", 0) == "end";
    TextIsStored(rules, 0, 0);
    TextIsStored(rules, 1, 0);
    hide TextAt;
    assert FirstCarrier(rules, "end", 1) == 1;
  }

  // ----- The procedures -----

  class Rules {
    var mem: seq<Cell>
    var bufsize: nat
    var current: nat
    ghost var added: seq<Rule>

    ghost predicate Valid()
      reads this
    {
      mem == Packed(added) && bufsize == |mem| && WholeWords(added)
    }

    /** The iteration stands before the i-th rule. */
    ghost predicate StandsAt(i: nat)
      reads this
    {
      i <= |added| && current == Offset(added, i)
    }

    constructor ()
      ensures Valid() && added == [] && StandsAt(0)
    {
      mem, bufsize, current, added := [], 0, 0, [];
    }

    /** The end of add_to_rules: pad the rule, grow the buffer, and copy the rule behind the others. */
    method AddRule(rule: Rule)
      requires Valid()
      modifies this
      ensures Valid() && added == old(added) + [Padded(rule)] && mem == old(mem) + Image(Padded(rule))
      ensures Aligned(old(bufsize)) && Aligned(bufsize) && current == old(current)
    {
      hide Packed, Offset, PastWord, Padding;
      var ruleSize := HEADER_SIZE + |rule.buf|;
      var padding := Padding(ruleSize);
      ruleSize := ruleSize + padding;
      var copy := rule.(buf := rule.buf + Zeros(padding));
      PackedAt(added, |added|);
      OffsetsAreAligned(added, |added|);
      AlignedSum(bufsize, ruleSize);
      PackedAppend(added, copy);
      mem := mem + Image(copy);
      bufsize := bufsize + ruleSize;
      added := added + [copy];
    }

    method IterInit()
      modifies this`current
      ensures StandsAt(0)
    {
      current := 0;
    }

    method IterNext(ghost i: nat) returns (rule: Option<Rule>)
      requires Valid() && StandsAt(i)
      modifies this`current
      ensures if i < |added| then rule == Some(added[i]) && StandsAt(i + 1) else rule == None && StandsAt(i)
    {
      PackedAt(added, i);
      hide Packed, Offset, ReadRule;
      if current >= bufsize {
        return None;
      }
      rule := ReadRule(mem, current);
      current := current + HEADER_SIZE + |rule.value.buf|;
    }

    /** Move to the rule with the label without stepping over it; also counts the rules passed. */
    method IterLabel(wanted: string, ghost i: nat) returns (rule: Option<Rule>, passed: nat)
      requires Valid() && StandsAt(i)
      modifies this`current
      ensures var j := FindLabel(added, wanted, i);
        StandsAt(j) && i + passed == j && rule == if j < |added| then Some(added[j]) else None
    {
      hide Packed, Offset, ReadRule;
      ghost var k := i;
      passed := 0;
      PackedAt(added, k);
      while current < bufsize
        invariant StandsAt(k) && FindLabel(added, wanted, i) == FindLabel(added, wanted, k)
        invariant i + passed == k && (current < bufsize <==> k < |added|)
        decreases |added| - k
      {
        PackedAt(added, k);
        var r := ReadRule(mem, current).value;
        if MemString(mem, current + HEADER_SIZE + r.labelKey.valOff) == wanted {
          return Some(r), passed;
        }
        current := current + HEADER_SIZE + |r.buf|;
        k, passed := k + 1, passed + 1;
        PackedAt(added, k);
      }
      return None, passed;
    }

    /** The iteration from the start yields exactly the added rules in order, and ends exactly
        at the end of the buffer. */
    method ReadAll() returns (rules: seq<Rule>)
      requires Valid()
      modifies this`current
      ensures rules == added && current == bufsize
    {
      hide Packed, Offset;
      IterInit();
      rules := [];
      ghost var i := 0;
      var rule := IterNext(0);
      while rule.Some?
        invariant Valid() && added == old(added) && bufsize == old(bufsize)
        invariant i <= |added| && rules == added[..i]
        invariant if rule.Some? then i < |added| && rule == Some(added[i]) && StandsAt(i + 1) else i == |added| && StandsAt(i)
        decreases |added| - i
      {
        rules := rules + [rule.value];
        i := i + 1;
        rule := IterNext(i);
      }
      PackedAt(added, |added|);
    }
  }
}
