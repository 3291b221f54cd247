/** The line-based text form of block clusters (DisCrawler/DOMAttUtil/BlockCluster.cpp, BlockNode.cpp,
    stringutil.cpp). */
module Serialize {

  const INT_MAX := 0x7fff_ffff
  type int32 = x: int | -INT_MAX - 1 <= x <= INT_MAX

  // ------------------------------------------------ filtering

  const INVALID := "\n\t\r#"

  function Filter(s: string): (r: string)
    ensures forall c | c in r :: c in s && c !in INVALID
  {
    if s == "" then ""
    else if s[|s| - 1] in INVALID then Filter(s[..|s| - 1])
    else Filter(s[..|s| - 1]) + [s[|s| - 1]]
  }

  lemma {:induction false} FilterAppend(s: string, t: string)
    ensures Filter(s + t) == Filter(s) + Filter(t)
    decreases |t|
  {
    if t == "" {
      assert s + t == s;
    } else {
      FilterAppend(s, t[..|t| - 1]);
      assert (s + t)[..|s + t| - 1] == s + t[..|t| - 1];
    }
  }

  /** Filtering keeps a text that has nothing to remove, so it filters once and for all. */
  lemma {:induction false} FilterKeeps(s: string)
    ensures Filter(s) == s <==> forall c | c in s :: c !in INVALID
    ensures Filter(Filter(s)) == Filter(s)
    decreases |s|
  {
    if s != "" {
      var init, c := s[..|s| - 1], s[|s| - 1];
      FilterKeeps(init);
      assert s == init + [c];
      FilterLength(init);
      FilterAppend(Filter(init), [c]);
      assert [c][..0] == "" && Filter("") == "";
      assert forall d | d in s :: d in init || d == c;
      assert forall d | d in init :: d in s;
    }
  }

  lemma {:induction false} FilterLength(s: string)
    ensures |Filter(s)| <= |s|
    decreases |s|
  {
    if s != "" {
      FilterLength(s[..|s| - 1]);
    }
  }

  /** A newline, a tab, a carriage return and a number sign are taken out, and nothing else; with FilterAppend
      that fixes the filter. */
  lemma FilterOne(c: char)
    ensures Filter([c]) == if c == '\n' || c == '\t' || c == '\r' || c == '#' then "" else [c]
  {
    assert [c][..0] == "" && Filter("") == "";
  }

  /** So every other character stays as often as it was. */
  lemma {:induction false} FilterCounts(s: string, c: char)
    ensures multiset(Filter(s))[c] == if c == '\n' || c == '\t' || c == '\r' || c == '#' then 0 else multiset(s)[c]
  {
    if s == "" {
      assert Filter(s) == "";
    } else {
      hide Filter;
      var init, d := s[..|s| - 1], s[|s| - 1];
      assert s == init + [d];
      FilterCounts(init, c);
      FilterAppend(init, [d]);
      FilterOne(d);
    }
  }

  /** For example. */
  lemma FilterExample()
    ensures Filter("a#b\tc") == "abc"
  {
    hide Filter;
    FilterPair('a', '#');
    FilterPair('b', '\t');
    FilterAppend("a#", "b\t");
    FilterAppend("a#b\t", "c");
    FilterOne('c');
    assert "a#" + "b\t" == "a#b\t" && "a#b\t" + "c" == "a#b\tc";
  }

  lemma FilterPair(c: char, d: char)
    ensures Filter([c, d]) == Filter([c]) + Filter([d])
    ensures Filter([c]) == if c == '\n' || c == '\t' || c == '\r' || c == '#' then "" else [c]
    ensures Filter([d]) == if d == '\n' || d == '\t' || d == '\r' || d == '#' then "" else [d]
  {
    FilterAppend([c], [d]);
    assert [c] + [d] == [c, d];
    FilterOne(c);
    FilterOne(d);
  }

  /** string_filter, which takes one character out of the string at a time. */
  method StringFilter(s: string, pos: nat) returns (r: string)
    requires pos <= |s| && Filter(s[..pos]) == s[..pos]
    ensures r == Filter(s)
    ensures forall c ::
      multiset(r)[c] == if c == '\n' || c == '\t' || c == '\r' || c == '#' then 0 else multiset(s)[c]
    decreases |s| - pos
  {
    forall c
      ensures multiset(Filter(s))[c] == (if c == '\n' || c == '\t' || c == '\r' || c == '#' then 0 else multiset(s)[c])
    {
      FilterCounts(s, c);
    }
    if pos >= |s| {
      assert s[..pos] == s;
      return s;
    }
    var c := s[pos];
    assert s == s[..pos] + [c] + s[pos + 1..];
    assert [c][..0] == "" && Filter("") == "";
    FilterAppend(s[..pos], [c]);
    FilterAppend(s[..pos] + [c], s[pos + 1..]);
    if c in INVALID {
      FilterAppend(s[..pos], s[pos + 1..]);
      assert (s[..pos] + s[pos + 1..])[..pos] == s[..pos];
      r := StringFilter(s[..pos] + s[pos + 1..], pos);
    } else {
      assert s[..pos + 1] == s[..pos] + [c];
      r := StringFilter(s, pos + 1);
    }
  }

  // ------------------------------------------------ integers in decimal

  predicate IsDigit(c: char) { '0' <= c <= '9' }
  function Digit(d: nat): char
    requires d < 10
  {
    '0' + d as char
  }

  function Digits(n: nat): string {
    if n < 10 then [Digit(n)] else Digits(n / 10) + [Digit(n % 10)]
  }

  function Decimal(i: int): string { if i < 0 then "-" + Digits(-i) else Digits(i) }

  /** The number at the front of `s`, behind the number `a`. */
  function Number(s: string, a: nat): nat {
    if s == "" || !IsDigit(s[0]) then a else Number(s[1..], 10 * a + (s[0] - '0') as nat)
  }

  predicate IsSpace(c: char) { c in " \t\n\r" || c == 11 as char || c == 12 as char }

  function Clamp(i: int): int32 { if i > INT_MAX then INT_MAX else if i < -INT_MAX - 1 then -INT_MAX - 1 else i }

  /** `ss1 >> i`, with i == 0 before: leading space, a sign, and digits. */
  function Parse(s: string): int32 {
    if s == "" then 0
    else if IsSpace(s[0]) then Parse(s[1..])
    else if s[0] == '-' then Clamp(-(Number(s[1..], 0) as int))
    else if s[0] == '+' then Clamp(Number(s[1..], 0))
    else Clamp(Number(s, 0))
  }

  lemma {:induction false} NumberSnoc(s: string, c: char, a: nat)
    requires (forall d | d in s :: IsDigit(d)) && IsDigit(c)
    ensures Number(s + [c], a) == 10 * Number(s, a) + (c - '0') as nat
    decreases |s|
  {
    if s == "" {
      assert s + [c] == [c] && [c][1..] == "";
    } else {
      assert (s + [c])[1..] == s[1..] + [c] && s[0] in s;
      NumberSnoc(s[1..], c, 10 * a + (s[0] - '0') as nat);
    }
  }

  lemma {:induction false} NumberOfDigits(n: nat)
    ensures (forall d | d in Digits(n) :: IsDigit(d)) && |Digits(n)| > 0 && Number(Digits(n), 0) == n
  {
    if n < 10 {
      assert [Digit(n)][1..] == "";
    } else {
      NumberOfDigits(n / 10);
      NumberSnoc(Digits(n / 10), Digit(n % 10), 0);
    }
  }

  /** An int is read back from its decimal form. */
  lemma ParseDecimal(i: int32)
    ensures Parse(Decimal(i)) == i && Plain(Decimal(i))
  {
    var n: int := if i < 0 then -(i as int) else i;
    NumberOfDigits(n);
    var s := Decimal(i);
    if i < 0 {
      assert s[1..] == Digits(n);
      assert forall d | d in s :: d == '-' || d in Digits(n);
    } else {
      assert s[0] in s && IsDigit(s[0]);
    }
  }

  /** A number that is no int is read as the nearest one. */
  lemma ParseSaturates(s: string)
    requires s != "" && forall d | d in s :: IsDigit(d)
    ensures var n: int := Number(s, 0);
      && Parse(s) as int == (if n <= 2147483647 then n else 2147483647)
      && Parse("-" + s) as int == (if n <= 2147483648 then -n else -2147483648)
  {
    assert s[0] in s && ("-" + s)[1..] == s;
  }

  /** For example; and what is no number is read as zero. */
  lemma DecimalExamples(c: char)
    ensures Decimal(0) == "0" && Decimal(12) == "12" && Decimal(-12) == "-12"
    ensures Parse("") == 0 && (!IsDigit(c) && !IsSpace(c) && c !in "+-" ==> Parse([c]) == 0)
    ensures Parse(" 7") == 7 && Parse("+7") == 7
  {
    assert " 7"[1..] == "7" && "+7"[1..] == "7" && "7"[1..] == "" && Number("7", 0) == 7;
  }

  // ------------------------------------------------ lines

  const NUL := 0 as char
  /** The char that get() returns at the end of the stream. */
  const EOF := 255 as char

  predicate Plain(s: string) { '\n' !in s && NUL !in s }

  /** What has not been read of a stream, and whether it is still good. */
  datatype Text = Text(rest: string, good: bool)

  /** get_line: NUL characters are lost, and the end of the stream reads as one more character. */
  function GetLine(t: Text): (r: (string, Text))
    ensures Plain(r.0)
    decreases |t.rest|
  {
    if !t.good then ("", t)
    else if t.rest == "" then ([EOF], Text("", false))
    else if t.rest[0] == '\n' then ("", Text(t.rest[1..], true))
    else
      var (line, after) := GetLine(Text(t.rest[1..], true));
      (if t.rest[0] == NUL then line else [t.rest[0]] + line, after)
  }

  function GetInteger(t: Text): (int32, Text) {
    var (line, after) := GetLine(t);
    (Parse(line), after)
  }

  /** Lines written one after the other. */
  function Written(lines: seq<string>): string {
    if lines == [] then "" else lines[0] + "\n" + Written(lines[1..])
  }

  lemma {:induction false} WrittenAppend(a: seq<string>, b: seq<string>)
    ensures Written(a + b) == Written(a) + Written(b)
    decreases |a|
  {
    if a == [] {
      assert a + b == b;
    } else {
      WrittenAppend(a[1..], b);
      assert (a + b)[1..] == a[1..] + b;
    }
  }

  /** A good stream on which those lines are waiting. */
  function Waiting(lines: seq<string>, tail: string): Text { Text(Written(lines) + tail, true) }

  lemma {:induction false} GetLineOf(line: string, rest: string)
    requires Plain(line)
    ensures GetLine(Text(line + "\n" + rest, true)) == (line, Text(rest, true))
    decreases |line|
  {
    var s := line + "\n" + rest;
    if line == "" {
      assert s[0] == '\n' && s[1..] == rest;
    } else {
      assert s[0] == line[0] && s[1..] == line[1..] + "\n" + rest;
      assert line == [line[0]] + line[1..];
      GetLineOf(line[1..], rest);
    }
  }

  /** Without a newline the text to the end is the line, with its NULs left out and the character 255 added; and
      the stream is no longer good. */
  lemma {:induction false} LastLine(s: string)
    requires '\n' !in s
    ensures GetLine(Text(s, true)) == (WithoutNul(s) + [255 as char], Text("", false))
    decreases |s|
  {
    if s != "" {
      assert s[0] in s && forall c | c in s[1..] :: c in s;
      LastLine(s[1..]);
      assert "" + WithoutNul(s[1..]) == WithoutNul(s[1..]);
      assert [s[0]] + (WithoutNul(s[1..]) + [255 as char]) == [s[0]] + WithoutNul(s[1..]) + [255 as char];
    }
    assert "" + [255 as char] == [255 as char];
  }

  function WithoutNul(s: string): string {
    if s == "" then "" else (if s[0] == 0 as char then "" else [s[0]]) + WithoutNul(s[1..])
  }

  lemma NextLine(line: string, lines: seq<string>, tail: string)
    requires Plain(line)
    ensures GetLine(Waiting([line] + lines, tail)) == (line, Waiting(lines, tail))
  {
    assert ([line] + lines)[1..] == lines;
    assert Written([line] + lines) + tail == line + "\n" + (Written(lines) + tail);
    GetLineOf(line, Written(lines) + tail);
  }

  lemma NextInteger(i: int32, lines: seq<string>, tail: string)
    ensures GetInteger(Waiting([Decimal(i)] + lines, tail)) == (i, Waiting(lines, tail))
  {
    ParseDecimal(i);
    NextLine(Decimal(i), lines, tail);
  }

  // ------------------------------------------------ the entities

  datatype BlockNode = BlockNode(name: string, path: string, text: string, x: int32, y: int32, w: int32, h: int32)
  {
    function Filtered(): BlockNode { this.(text := Filter(text)) }

    function Lines(): seq<string> {
      [name, path, Filter(text), Decimal(x), Decimal(y), Decimal(w), Decimal(h)]
    }

    predicate IsPlain() { Plain(name) && Plain(path) && Plain(text) }

    /** What can be read back: the filter takes the newlines out of the text, but not its NULs. */
    predicate Readable() { Plain(name) && Plain(path) && NUL !in Filter(text) }
  }

  datatype BlockList = BlockList(xpath: string, url: string, blocks: seq<BlockNode>)
  {
    function Filtered(): BlockList { this.(blocks := FilteredNodes(blocks)) }

    function Lines(): seq<string> { [xpath, url, Decimal(|blocks|)] + NodeLines(blocks) }

    predicate IsPlain() { Plain(xpath) && Plain(url) && forall n | n in blocks :: n.IsPlain() }

    predicate Readable() { Plain(xpath) && Plain(url) && forall n | n in blocks :: n.Readable() }
  }

  function FilteredNodes(ns: seq<BlockNode>): (r: seq<BlockNode>)
    ensures |r| == |ns| && forall i | 0 <= i < |ns| :: r[i] == ns[i].Filtered()
  {
    seq(|ns|, i requires 0 <= i < |ns| => ns[i].Filtered())
  }

  function FilteredLists(ls: seq<BlockList>): (r: seq<BlockList>)
    ensures |r| == |ls| && forall i | 0 <= i < |ls| :: r[i] == ls[i].Filtered()
  {
    seq(|ls|, i requires 0 <= i < |ls| => ls[i].Filtered())
  }

  function NodeLines(ns: seq<BlockNode>): seq<string> {
    if ns == [] then [] else ns[0].Lines() + NodeLines(ns[1..])
  }

  function ListLines(ls: seq<BlockList>): seq<string> {
    if ls == [] then [] else ls[0].Lines() + ListLines(ls[1..])
  }

  function RuleLines(rules: map<string, string>, keys: seq<string>): seq<string>
    requires forall k | k in keys :: k in rules
  {
    if keys == [] then [] else [keys[0], rules[keys[0]]] + RuleLines(rules, keys[1..])
  }

  // ------------------------------------------------ reading

  function ReadNode(t: Text): (r: (BlockNode, Text))
    ensures r.0.IsPlain()
  {
    var (name, t) := GetLine(t);
    var (path, t) := GetLine(t);
    var (text, t) := GetLine(t);
    var (x, t) := GetInteger(t);
    var (y, t) := GetInteger(t);
    var (w, t) := GetInteger(t);
    var (h, t) := GetInteger(t);
    (BlockNode(name, path, text, x, y, w, h), t)
  }

  function ReadNodes(t: Text, n: nat): (r: (seq<BlockNode>, Text))
    ensures forall b | b in r.0 :: b.IsPlain()
    decreases n
  {
    if n == 0 then ([], t)
    else
      var (b, t) := ReadNode(t);
      var (bs, t) := ReadNodes(t, n - 1);
      ([b] + bs, t)
  }

  function Count(i: int32): nat { if i < 0 then 0 else i }

  function ReadList(t: Text): (r: (BlockList, Text))
    ensures r.0.IsPlain()
  {
    var (xpath, t) := GetLine(t);
    var (url, t) := GetLine(t);
    var (size, t) := GetInteger(t);
    var (blocks, t) := ReadNodes(t, Count(size));
    (BlockList(xpath, url, blocks), t)
  }

  function ReadLists(t: Text, n: nat): (r: (seq<BlockList>, Text))
    ensures forall l | l in r.0 :: l.IsPlain()
    decreases n
  {
    if n == 0 then ([], t)
    else
      var (l, t) := ReadList(t);
      var (ls, t) := ReadLists(t, n - 1);
      ([l] + ls, t)
  }

  /** map::insert does not replace. */
  function Insert(rules: map<string, string>, k: string, v: string): map<string, string> {
    if k in rules then rules else rules[k := v]
  }

  predicate PlainRules(rules: map<string, string>) { forall k | k in rules :: Plain(k) && Plain(rules[k]) }

  function ReadRules(t: Text, n: nat, rules: map<string, string>): (r: (map<string, string>, Text))
    ensures PlainRules(rules) ==> PlainRules(r.0)
    decreases n
  {
    if n == 0 then (rules, t)
    else
      var (a, t) := GetLine(t);
      var (b, t) := GetLine(t);
      ReadRules(t, n - 1, Insert(rules, a, b))
  }

  /** A rule that is there stays, whatever is read for its key. */
  lemma {:induction false} RulesStay(t: Text, n: nat, rules: map<string, string>, key: string)
    requires key in rules
    ensures key in ReadRules(t, n, rules).0 && ReadRules(t, n, rules).0[key] == rules[key]
    decreases n
  {
    hide GetLine;
    if n > 0 {
      var (a, t1) := GetLine(t);
      var (b, t2) := GetLine(t1);
      RulesStay(t2, n - 1, Insert(rules, a, b), key);
    }
  }

  // ------------------------------------------------ reading what was written

  lemma NodeRoundTrip(n: BlockNode, lines: seq<string>, tail: string)
    requires n.Readable()
    ensures ReadNode(Waiting(n.Lines() + lines, tail)) == (n.Filtered(), Waiting(lines, tail))
  {
    hide Waiting, GetLine, GetInteger, Decimal, Filter;
    var l4 := [Decimal(n.h)] + lines;
    var l3 := [Decimal(n.w)] + l4;
    var l2 := [Decimal(n.y)] + l3;
    var l1 := [Decimal(n.x)] + l2;
    var text := [Filter(n.text)] + l1;
    var path := [n.path] + text;
    assert n.Lines() + lines == [n.name] + path;
    NextLine(n.name, path, tail);
    NextLine(n.path, text, tail);
    NextLine(Filter(n.text), l1, tail);
    NextInteger(n.x, l2, tail);
    NextInteger(n.y, l3, tail);
    NextInteger(n.w, l4, tail);
    NextInteger(n.h, lines, tail);
  }

  lemma {:induction false} NodesRoundTrip(ns: seq<BlockNode>, lines: seq<string>, tail: string)
    requires forall n | n in ns :: n.Readable()
    ensures ReadNodes(Waiting(NodeLines(ns) + lines, tail), |ns|) == (FilteredNodes(ns), Waiting(lines, tail))
    decreases |ns|
  {
    hide Waiting, ReadNode, BlockNode.Lines, BlockNode.Filtered;
    if ns == [] {
      assert NodeLines(ns) + lines == lines;
    } else {
      var more := NodeLines(ns[1..]) + lines;
      assert NodeLines(ns) + lines == ns[0].Lines() + more;
      NodeRoundTrip(ns[0], more, tail);
      NodesRoundTrip(ns[1..], lines, tail);
      assert FilteredNodes(ns) == [ns[0].Filtered()] + FilteredNodes(ns[1..]);
    }
  }

  lemma ListRoundTrip(l: BlockList, lines: seq<string>, tail: string)
    requires l.Readable() && |l.blocks| <= INT_MAX
    ensures ReadList(Waiting(l.Lines() + lines, tail)) == (l.Filtered(), Waiting(lines, tail))
  {
    hide Waiting, GetLine, GetInteger, Decimal, ReadNodes, NodeLines;
    var nodes := NodeLines(l.blocks) + lines;
    var size := [Decimal(|l.blocks|)] + nodes;
    assert l.Lines() + lines == [l.xpath] + ([l.url] + size);
    NextLine(l.xpath, [l.url] + size, tail);
    NextLine(l.url, size, tail);
    NextInteger(|l.blocks|, nodes, tail);
    NodesRoundTrip(l.blocks, lines, tail);
  }

  lemma {:induction false} ListsRoundTrip(ls: seq<BlockList>, lines: seq<string>, tail: string)
    requires forall l | l in ls :: l.Readable() && |l.blocks| <= INT_MAX
    ensures ReadLists(Waiting(ListLines(ls) + lines, tail), |ls|) == (FilteredLists(ls), Waiting(lines, tail))
    decreases |ls|
  {
    hide Waiting, ReadList, BlockList.Lines, BlockList.Filtered;
    if ls == [] {
      assert ListLines(ls) + lines == lines;
    } else {
      var more := ListLines(ls[1..]) + lines;
      assert ListLines(ls) + lines == ls[0].Lines() + more;
      ListRoundTrip(ls[0], more, tail);
      ListsRoundTrip(ls[1..], lines, tail);
      assert FilteredLists(ls) == [ls[0].Filtered()] + FilteredLists(ls[1..]);
    }
  }

  /** The map restricted to some keys. */
  function Restrict(rules: map<string, string>, keys: seq<string>): map<string, string> {
    map k | k in rules && k in keys :: rules[k]
  }

  predicate Distinct(keys: seq<string>) { forall i, j | 0 <= i < j < |keys| :: keys[i] != keys[j] }

  lemma {:induction false} RulesRoundTrip(rules: map<string, string>, done: seq<string>, keys: seq<string>,
                                          lines: seq<string>, tail: string)
    requires (forall k | k in done + keys :: k in rules) && Distinct(done + keys)
    requires forall k | k in keys :: Plain(k) && Plain(rules[k])
    ensures ReadRules(Waiting(RuleLines(rules, keys) + lines, tail), |keys|, Restrict(rules, done)) ==
            (Restrict(rules, done + keys), Waiting(lines, tail))
    decreases |keys|
  {
    hide Waiting, GetLine, Plain;
    if keys == [] {
      assert RuleLines(rules, keys) + lines == lines && done + keys == done;
    } else {
      var k := keys[0];
      var more := RuleLines(rules, keys[1..]) + lines;
      assert RuleLines(rules, keys) + lines == [k] + ([rules[k]] + more);
      NextLine(k, [rules[k]] + more, tail);
      NextLine(rules[k], more, tail);
      assert done + keys == done + [k] + keys[1..];
      assert (done + keys)[|done|] == k;
      assert k !in done by {
        forall i | 0 <= i < |done| ensures done[i] != k {
          assert (done + keys)[i] == done[i];
        }
      }
      assert Restrict(rules, done + [k]) == Insert(Restrict(rules, done), k, rules[k]);
      RulesRoundTrip(rules, done + [k], keys[1..], lines, tail);
    }
  }

  // ------------------------------------------------ clusters

  /** The fields that are written. */
  datatype Fields = Fields(isImportant: bool, important: int32, kind: int32, name: int32, mainSectionPath: string,
                           blocks: seq<BlockList>, wrapRule: map<string, string>, mainNode: seq<BlockNode>)

  /** BlockCluster(). */
  const FRESH := Fields(false, 0, INVALID_BLOCK, 0, "", [], map[], [])
  const INVALID_BLOCK: int32 := 0

  /** At most five block lists are written. */
  function Head(ls: seq<BlockList>): (r: seq<BlockList>)
    ensures r <= ls && |r| == if |ls| > 5 then 5 else |ls|
  {
    if |ls| > 5 then ls[..5] else ls
  }

  /** The order in which the rules are written: every key once.  (std::map has them sorted.) */
  predicate Enumerates(keys: seq<string>, rules: map<string, string>) {
    Distinct(keys) && (forall k | k in keys :: k in rules) && (forall k | k in rules :: k in keys)
  }

  /** Sizes are ints. */
  predicate Fits(f: Fields) {
    |f.wrapRule| <= INT_MAX && |f.mainNode| <= INT_MAX && forall l | l in f.blocks :: |l.blocks| <= INT_MAX
  }

  function ClusterLines(f: Fields, keys: seq<string>): seq<string>
    requires forall k | k in keys :: k in f.wrapRule
  {
    [Decimal(if f.isImportant then 1 else 0)] + ([Decimal(f.important)] + ([Decimal(f.kind)] + ([Decimal(f.name)] +
    ([f.mainSectionPath] + ([Decimal(|Head(f.blocks)|)] + (ListLines(Head(f.blocks)) +
    ([Decimal(|f.wrapRule|)] + (RuleLines(f.wrapRule, keys) +
    ([Decimal(|f.mainNode|)] + (NodeLines(f.mainNode) + []))))))))))
  }

  /** deserialize, into an object that holds `held`. */
  function ReadCluster(t: Text, held: Fields): (r: (Fields, Text))
    ensures Plain(r.0.mainSectionPath)
    ensures held.blocks == [] ==> forall l | l in r.0.blocks :: l.IsPlain()
    ensures held.mainNode == [] ==> forall n | n in r.0.mainNode :: n.IsPlain()
    ensures PlainRules(held.wrapRule) ==> PlainRules(r.0.wrapRule)
  {
    var (isImportant, t) := GetInteger(t);
    var (important, t) := GetInteger(t);
    var (kind, t) := GetInteger(t);
    var (name, t) := GetInteger(t);
    var (mainSectionPath, t) := GetLine(t);
    var (size, t) := GetInteger(t);
    var (blocks, t) := ReadLists(t, Count(size));
    var (size, t) := GetInteger(t);
    var (wrapRule, t) := ReadRules(t, Count(size), held.wrapRule);
    var (size, t) := GetInteger(t);
    var (mainNode, t) := ReadNodes(t, Count(size));
    (Fields(isImportant != 0, important, kind, name, mainSectionPath, held.blocks + blocks, wrapRule,
            held.mainNode + mainNode), t)
  }

  /** What serialize leaves in the object: the texts it wrote have been filtered. */
  function AfterSerialize(f: Fields): Fields {
    f.(blocks := FilteredLists(Head(f.blocks)) + f.blocks[|Head(f.blocks)|..], mainNode := FilteredNodes(f.mainNode))
  }

  /** What a fresh object is to hold afterwards. */
  function Expected(f: Fields): Fields {
    f.(blocks := FilteredLists(Head(f.blocks)), mainNode := FilteredNodes(f.mainNode))
  }

  /** Whatever is read, the lists, rules and nodes that the object holds stay. */
  lemma HeldStays(t: Text, held: Fields)
    ensures var f := ReadCluster(t, held).0;
      && held.blocks <= f.blocks && held.mainNode <= f.mainNode
      && forall k | k in held.wrapRule :: k in f.wrapRule && f.wrapRule[k] == held.wrapRule[k]
  {
    hide GetInteger, GetLine, ReadLists, ReadRules, ReadNodes;
    var (isImportant, t1) := GetInteger(t);
    var (important, t2) := GetInteger(t1);
    var (kind, t3) := GetInteger(t2);
    var (name, t4) := GetInteger(t3);
    var (mainSectionPath, t5) := GetLine(t4);
    var (lists, t6) := GetInteger(t5);
    var (blocks, t7) := ReadLists(t6, Count(lists));
    var (size, t8) := GetInteger(t7);
    forall k | k in held.wrapRule
      ensures k in ReadCluster(t, held).0.wrapRule && ReadCluster(t, held).0.wrapRule[k] == held.wrapRule[k]
    {
      RulesStay(t8, Count(size), held.wrapRule, k);
    }
  }

  /** The condition for it: no newline in names, paths, urls and rules, and no NUL in what is written. */
  predicate Readable(f: Fields) {
    && Plain(f.mainSectionPath)
    && (forall l | l in Head(f.blocks) :: l.Readable())
    && PlainRules(f.wrapRule)
    && (forall n | n in f.mainNode :: n.Readable())
  }

  lemma {:induction false} KeysAreAll(rules: map<string, string>, keys: seq<string>)
    requires Enumerates(keys, rules)
    ensures |keys| == |rules| && Restrict(rules, keys) == rules
  {
    DistinctSize(keys);
    assert (set k | k in keys) == rules.Keys;
  }

  lemma {:induction false} DistinctSize(keys: seq<string>)
    requires Distinct(keys)
    ensures |set k | k in keys| == |keys|
    decreases |keys|
  {
    if keys == [] {
      assert (set k | k in keys) == {};
    } else {
      var init, last := keys[..|keys| - 1], keys[|keys| - 1];
      DistinctSize(init);
      assert (set k | k in keys) == (set k | k in init) + {last};
    }
  }

  /** The round trip, with whatever follows on the stream left unread. */
  lemma ClusterRoundTrip(f: Fields, keys: seq<string>, tail: string)
    requires Readable(f) && Fits(f) && Enumerates(keys, f.wrapRule)
    ensures ReadCluster(Waiting(ClusterLines(f, keys), tail), FRESH) == (Expected(f), Text(tail, true))
  {
    hide Waiting, GetLine, GetInteger, Decimal, ReadNodes, ReadLists, ReadRules, NodeLines, ListLines, RuleLines,
      Restrict;
    KeysAreAll(f.wrapRule, keys);
    var l7 := [Decimal(|f.mainNode|)] + (NodeLines(f.mainNode) + []);
    var l6 := [Decimal(|f.wrapRule|)] + (RuleLines(f.wrapRule, keys) + l7);
    var l5 := [Decimal(|Head(f.blocks)|)] + (ListLines(Head(f.blocks)) + l6);
    var l4 := [f.mainSectionPath] + l5;
    var l3 := [Decimal(f.name)] + l4;
    var l2 := [Decimal(f.kind)] + l3;
    var l1 := [Decimal(f.important)] + l2;
    var flag := if f.isImportant then 1 else 0;
    assert ClusterLines(f, keys) == [Decimal(flag)] + l1;
    NextInteger(flag, l1, tail);
    NextInteger(f.important, l2, tail);
    NextInteger(f.kind, l3, tail);
    NextInteger(f.name, l4, tail);
    NextLine(f.mainSectionPath, l5, tail);
    NextInteger(|Head(f.blocks)|, ListLines(Head(f.blocks)) + l6, tail);
    ListsRoundTrip(Head(f.blocks), l6, tail);
    NextInteger(|f.wrapRule|, RuleLines(f.wrapRule, keys) + l7, tail);
    NoRules(f.wrapRule);
    assert [] + keys == keys;
    RulesRoundTrip(f.wrapRule, [], keys, l7, tail);
    NextInteger(|f.mainNode|, NodeLines(f.mainNode) + [], tail);
    NodesRoundTrip(f.mainNode, [], tail);
    NothingWaiting(tail);
    assert [] + FilteredLists(Head(f.blocks)) == FilteredLists(Head(f.blocks));
    assert [] + FilteredNodes(f.mainNode) == FilteredNodes(f.mainNode);
  }

  lemma NoRules(rules: map<string, string>)
    ensures Restrict(rules, []) == map[]
  {
  }

  lemma NothingWaiting(tail: string)
    ensures Waiting([], tail) == Text(tail, true)
  {
  }

  /** Exactly then: an object with a newline in a name, path, url or rule, or a NUL in anything that is
      written, does not come back. */
  lemma RoundTripIff(f: Fields, keys: seq<string>)
    requires Fits(f) && Enumerates(keys, f.wrapRule)
    ensures ReadCluster(Waiting(ClusterLines(f, keys), ""), FRESH).0 == Expected(f) <==> Readable(f)
  {
    hide Waiting, ReadCluster, ClusterLines;
    if Readable(f) {
      ClusterRoundTrip(f, keys, "");
    }
    var back := ReadCluster(Waiting(ClusterLines(f, keys), ""), FRESH).0;
    if back == Expected(f) {
      forall i | 0 <= i < |Head(f.blocks)| ensures Head(f.blocks)[i].Readable() {
        assert back.blocks[i] == Head(f.blocks)[i].Filtered() && back.blocks[i] in back.blocks;
        PlainIsReadable(Head(f.blocks)[i]);
      }
      forall i | 0 <= i < |f.mainNode| ensures f.mainNode[i].Readable() {
        assert back.mainNode[i] == f.mainNode[i].Filtered() && back.mainNode[i] in back.mainNode;
      }
    }
  }

  lemma PlainIsReadable(l: BlockList)
    requires l.Filtered().IsPlain()
    ensures l.Readable()
  {
    forall i | 0 <= i < |l.blocks| ensures l.blocks[i].Readable() {
      assert l.Filtered().blocks[i] in l.Filtered().blocks;
    }
  }

  /** The order of what is written, for example: name, path, text and box of a node. */
  lemma NodeOrder(name: string, path: string, text: string)
    ensures BlockNode(name, path, text, 1, 2, 3, 4).Lines() == [name, path, Filter(text), "1", "2", "3", "4"]
  {
    SmallDecimals();
  }

  /** Path, url, number and nodes of a block list. */
  lemma ListOrder(xpath: string, url: string, a: BlockNode, b: BlockNode)
    ensures BlockList(xpath, url, [a, b]).Lines() == [xpath, url, "2"] + a.Lines() + b.Lines()
  {
    hide Decimal, BlockNode.Lines;
    SmallDecimals();
    assert [a, b][1..] == [b] && [b][1..] == [];
    assert NodeLines([b]) == b.Lines() && NodeLines([a, b]) == a.Lines() + b.Lines();
  }

  /** Flag, importance, kind, name and path of a cluster, then its block lists, rules and main nodes. */
  lemma ClusterOrder(section: string, l: BlockList, key: string, rule: string, n: BlockNode)
    ensures ClusterLines(Fields(true, 5, 6, 7, section, [l], map[key := rule], [n]), [key])
      == ["1", "5", "6", "7", section] + (["1"] + l.Lines()) + ["1", key, rule] + (["1"] + n.Lines())
  {
    hide Decimal, BlockNode.Lines, BlockList.Lines, ClusterLines;
    SmallDecimals();
    var f := Fields(true, 5, 6, 7, section, [l], map[key := rule], [n]);
    OnlyOne(n, l, f.wrapRule, key);
    ClusterLinesFlat(f, [key]);
  }

  lemma OnlyOne(n: BlockNode, l: BlockList, rules: map<string, string>, key: string)
    requires key in rules
    ensures NodeLines([n]) == n.Lines() && ListLines([l]) == l.Lines() && RuleLines(rules, [key]) == [key, rules[key]]
  {
    hide BlockNode.Lines, BlockList.Lines;
    assert [n][1..] == [] && NodeLines([]) == [] && n.Lines() + [] == n.Lines();
    assert [l][1..] == [] && ListLines([]) == [] && l.Lines() + [] == l.Lines();
    assert [key][1..] == [] && RuleLines(rules, []) == [] && [key, rules[key]] + [] == [key, rules[key]];
  }

  lemma SmallDecimals()
    ensures Decimal(0) == "0" && Decimal(1) == "1" && Decimal(2) == "2" && Decimal(3) == "3"
    ensures Decimal(4) == "4" && Decimal(5) == "5" && Decimal(6) == "6" && Decimal(7) == "7"
  {
  }

  // ------------------------------------------------ the objects

  /** What writing those lines makes of a stream; a stream that is no longer good takes nothing. */
  function Append(t: Text, lines: seq<string>): Text {
    if t.good then Text(t.rest + Written(lines), true) else t
  }

  lemma AppendMore(t: Text, a: seq<string>, b: seq<string>)
    ensures Append(Append(t, a), b) == Append(t, a + b)
  {
    hide Written;
    WrittenAppend(a, b);
    if t.good {
      assert t.rest + Written(a) + Written(b) == t.rest + (Written(a) + Written(b));
    }
  }

  class StringStream {
    var rest: string
    var good: bool

    constructor ()
      ensures View() == Text("", true)
    {
      rest, good := "", true;
    }

    function View(): Text
      reads this
    {
      Text(rest, good)
    }

    /** ss << s << endl. */
    method WriteLine(s: string)
      modifies this
      ensures View() == Append(old(View()), [s])
    {
      if good {
        rest := rest + s + "\n";
      }
      assert Written([s]) == s + "\n" + Written([]);
    }

    /** get(). */
    method Get() returns (c: char)
      requires good
      modifies this
      ensures if old(rest) == "" then c == EOF && View() == Text("", false)
              else c == old(rest)[0] && View() == Text(old(rest)[1..], true)
    {
      if rest == "" {
        c, good := EOF, false;
      } else {
        c, rest := rest[0], rest[1..];
      }
    }

    /** get_line. */
    method ReadLine() returns (line: string)
      modifies this
      ensures (line, View()) == GetLine(old(View()))
    {
      line := "";
      while good
        invariant GetLine(old(View())).0 == line + GetLine(View()).0 && GetLine(old(View())).1 == GetLine(View()).1
        decreases good, |rest|
      {
        ghost var before := View();
        var c := Get();
        if c == '\n' {
          assert GetLine(before).0 == "" && GetLine(before).1 == View() && line + "" == line;
          return;
        }
        if c != NUL {
          assert GetLine(before).0 == [c] + GetLine(View()).0;
          line := line + [c];
        }
      }
      assert line + "" == line;
    }

    /** get_integer. */
    method ReadInteger() returns (i: int32)
      modifies this
      ensures (i, View()) == GetInteger(old(View()))
    {
      var line := ReadLine();
      return Parse(line);
    }
  }

  /** BlockNode::serialize: it writes the node and leaves the text filtered. */
  method SerializeNode(n: BlockNode, ss: StringStream) returns (r: BlockNode)
    modifies ss
    ensures r == n.Filtered() && ss.View() == Append(old(ss.View()), n.Lines())
  {
    hide Append, Decimal, Filter;
    ghost var t := ss.View();
    ss.WriteLine(n.name);
    ss.WriteLine(n.path);
    Nothing();
    var text := StringFilter(n.text, 0);
    r := n.(text := text);
    ss.WriteLine(r.text);
    ss.WriteLine(Decimal(r.x));
    ss.WriteLine(Decimal(r.y));
    ss.WriteLine(Decimal(r.w));
    ss.WriteLine(Decimal(r.h));
    var l := n.Lines();
    AppendMore(t, l[..1], [l[1]]);
    AppendMore(t, l[..2], [l[2]]);
    AppendMore(t, l[..3], [l[3]]);
    AppendMore(t, l[..4], [l[4]]);
    AppendMore(t, l[..5], [l[5]]);
    AppendMore(t, l[..6], [l[6]]);
    assert l[..1] == [l[0]] && l[..2] == l[..1] + [l[1]] && l[..3] == l[..2] + [l[2]] && l[..4] == l[..3] + [l[3]];
    assert l[..5] == l[..4] + [l[4]] && l[..6] == l[..5] + [l[5]] && l == l[..6] + [l[6]];
  }

  lemma Nothing()
    ensures Filter("") == ""
  {
  }

  /** BlockNode::deserialize, of a new node. */
  method DeserializeNode(ss: StringStream) returns (n: BlockNode)
    modifies ss
    ensures (n, ss.View()) == ReadNode(old(ss.View()))
  {
    var name := ss.ReadLine();
    var path := ss.ReadLine();
    var text := ss.ReadLine();
    var x := ss.ReadInteger();
    var y := ss.ReadInteger();
    var w := ss.ReadInteger();
    var h := ss.ReadInteger();
    return BlockNode(name, path, text, x, y, w, h);
  }

  /** The loops over lists of nodes, in both entities. */
  method SerializeNodes(ns: seq<BlockNode>, ss: StringStream) returns (r: seq<BlockNode>)
    modifies ss
    ensures r == FilteredNodes(ns) && ss.View() == Append(old(ss.View()), NodeLines(ns))
  {
    hide Append, NodeLines, BlockNode.Lines, BlockNode.Filtered;
    r := [];
    AppendNothing(ss.View());
    NoNodeLines();
    assert ns[..0] == [];
    for i := 0 to |ns|
      invariant r == FilteredNodes(ns[..i]) && ss.View() == Append(old(ss.View()), NodeLines(ns[..i]))
    {
      var n := SerializeNode(ns[i], ss);
      AppendMore(old(ss.View()), NodeLines(ns[..i]), ns[i].Lines());
      NodeLinesSnoc(ns[..i], ns[i]);
      assert ns[..i + 1] == ns[..i] + [ns[i]];
      r := r + [n];
      assert r == FilteredNodes(ns[..i + 1]);
    }
    assert ns[..|ns|] == ns;
  }

  lemma NoNodeLines()
    ensures NodeLines([]) == []
  {
  }

  lemma AppendNothing(t: Text)
    ensures Append(t, []) == t
  {
    assert t.rest + Written([]) == t.rest;
  }

  lemma {:induction false} NodeLinesSnoc(ns: seq<BlockNode>, n: BlockNode)
    ensures NodeLines(ns + [n]) == NodeLines(ns) + n.Lines()
    decreases |ns|
  {
    hide BlockNode.Lines;
    if ns == [] {
      assert ns + [n] == [n] && [n][1..] == [];
    } else {
      NodeLinesSnoc(ns[1..], n);
      assert (ns + [n])[1..] == ns[1..] + [n];
    }
  }

  method DeserializeNodes(ss: StringStream, size: int32) returns (r: seq<BlockNode>)
    modifies ss
    ensures (r, ss.View()) == ReadNodes(old(ss.View()), Count(size))
  {
    hide ReadNode;
    r := [];
    for i := 0 to Count(size)
      invariant ReadNodes(old(ss.View()), Count(size)).0 == r + ReadNodes(ss.View(), Count(size) - i).0
      invariant ReadNodes(old(ss.View()), Count(size)).1 == ReadNodes(ss.View(), Count(size) - i).1
    {
      ghost var more := ReadNodes(ss.View(), Count(size) - i).0;
      var n := DeserializeNode(ss);
      assert more == [n] + ReadNodes(ss.View(), Count(size) - i - 1).0;
      r := r + [n];
    }
    assert r + [] == r;
  }

  /** BlockList::serialize. */
  method SerializeList(l: BlockList, ss: StringStream) returns (r: BlockList)
    modifies ss
    ensures r == l.Filtered() && ss.View() == Append(old(ss.View()), l.Lines())
  {
    hide Append, Decimal, NodeLines;
    ghost var t := ss.View();
    ss.WriteLine(l.xpath);
    ss.WriteLine(l.url);
    ss.WriteLine(Decimal(|l.blocks|));
    var blocks := SerializeNodes(l.blocks, ss);
    r := l.(blocks := blocks);
    AppendMore(t, [l.xpath], [l.url]);
    AppendMore(t, [l.xpath] + [l.url], [Decimal(|l.blocks|)]);
    AppendMore(t, [l.xpath] + [l.url] + [Decimal(|l.blocks|)], NodeLines(l.blocks));
    assert l.Lines() == [l.xpath] + [l.url] + [Decimal(|l.blocks|)] + NodeLines(l.blocks);
  }

  /** BlockList::deserialize, of a new list. */
  method DeserializeList(ss: StringStream) returns (l: BlockList)
    modifies ss
    ensures (l, ss.View()) == ReadList(old(ss.View()))
  {
    var xpath := ss.ReadLine();
    var url := ss.ReadLine();
    var size := ss.ReadInteger();
    var blocks := DeserializeNodes(ss, size);
    return BlockList(xpath, url, blocks);
  }

  lemma {:induction false} ListLinesSnoc(ls: seq<BlockList>, l: BlockList)
    ensures ListLines(ls + [l]) == ListLines(ls) + l.Lines()
    decreases |ls|
  {
    hide BlockList.Lines;
    if ls == [] {
      assert ls + [l] == [l] && [l][1..] == [];
    } else {
      ListLinesSnoc(ls[1..], l);
      assert (ls + [l])[1..] == ls[1..] + [l];
    }
  }

  lemma AtStart(ls: seq<BlockList>)
    ensures ListLines([]) == [] && Head(ls) == ls[..|Head(ls)|]
  {
  }

  lemma {:induction false} RuleLinesSnoc(rules: map<string, string>, keys: seq<string>, k: string)
    requires k in rules && forall k' | k' in keys :: k' in rules
    ensures RuleLines(rules, keys + [k]) == RuleLines(rules, keys) + [k, rules[k]]
    decreases |keys|
  {
    if keys == [] {
      assert keys + [k] == [k] && [k][1..] == [];
    } else {
      RuleLinesSnoc(rules, keys[1..], k);
      assert (keys + [k])[1..] == keys[1..] + [k];
    }
  }

  lemma ClusterLinesFlat(f: Fields, keys: seq<string>)
    requires forall k | k in keys :: k in f.wrapRule
    ensures ClusterLines(f, keys) ==
      [Decimal(if f.isImportant then 1 else 0)] + [Decimal(f.important)] + [Decimal(f.kind)] + [Decimal(f.name)] +
      [f.mainSectionPath] + ([Decimal(|Head(f.blocks)|)] + ListLines(Head(f.blocks))) +
      ([Decimal(|f.wrapRule|)] + RuleLines(f.wrapRule, keys)) + [Decimal(|f.mainNode|)] + NodeLines(f.mainNode)
  {
    hide Decimal, Head, ListLines, RuleLines, NodeLines;
  }

  class BlockCluster {
    var isImportant: bool
    var important: int32
    var kind: int32
    var name: int32
    var mainSectionPath: string
    var blocks: seq<BlockList>
    var wrapRule: map<string, string>
    var mainNode: seq<BlockNode>

    function View(): Fields
      reads this
    {
      Fields(isImportant, important, kind, name, mainSectionPath, blocks, wrapRule, mainNode)
    }

    constructor ()
      ensures View() == FRESH == Fields(false, 0, 0, 0, "", [], map[], [])
    {
      isImportant, important, kind, name, mainSectionPath := false, 0, INVALID_BLOCK, 0, "";
      blocks, wrapRule, mainNode := [], map[], [];
    }

    /** The first loop of serialize. */
    method SerializeBlocks(ss: StringStream)
      modifies `blocks, ss
      ensures blocks == FilteredLists(Head(old(blocks))) + old(blocks)[|Head(old(blocks))|..]
      ensures ss.View() == Append(old(ss.View()), [Decimal(|Head(old(blocks))|)] + ListLines(Head(old(blocks))))
    {
      hide Append, Decimal, ListLines, BlockList.Lines, BlockList.Filtered;
      AtStart(blocks);
      var size := |blocks|;
      size := if size > 5 then 5 else size;
      ghost var head, t, first := Head(blocks), ss.View(), [Decimal(size)];
      ss.WriteLine(Decimal(size));
      assert head[..0] == [] && first + [] == first;
      for i := 0 to size
        invariant |blocks| == |old(blocks)|
        invariant forall k | 0 <= k < |blocks| :: blocks[k] == if k < i then old(blocks)[k].Filtered() else old(blocks)[k]
        invariant ss.View() == Append(t, first + ListLines(head[..i]))
      {
        var l := SerializeList(blocks[i], ss);
        blocks := blocks[i := l];
        AppendMore(t, first + ListLines(head[..i]), head[i].Lines());
        ListLinesSnoc(head[..i], head[i]);
        assert head[..i + 1] == head[..i] + [head[i]];
        assert first + ListLines(head[..i]) + head[i].Lines() == first + ListLines(head[..i + 1]);
      }
      assert head[..size] == head;
    }

    /** The second. */
    method SerializeRules(ss: StringStream, keys: seq<string>)
      requires Enumerates(keys, wrapRule)
      modifies ss
      ensures ss.View() == Append(old(ss.View()), [Decimal(|wrapRule|)] + RuleLines(wrapRule, keys))
    {
      hide Append, Decimal;
      KeysAreAll(wrapRule, keys);
      var size := |wrapRule|;
      ghost var t, first := ss.View(), [Decimal(size)];
      ss.WriteLine(Decimal(size));
      assert first + RuleLines(wrapRule, keys[..0]) == first;
      for i := 0 to size
        invariant ss.View() == Append(t, first + RuleLines(wrapRule, keys[..i]))
      {
        var a, b := keys[i], wrapRule[keys[i]];
        ss.WriteLine(a);
        ss.WriteLine(b);
        ghost var sofar := first + RuleLines(wrapRule, keys[..i]);
        AppendMore(t, sofar, [a]);
        AppendMore(t, sofar + [a], [b]);
        RuleLinesSnoc(wrapRule, keys[..i], a);
        assert keys[..i + 1] == keys[..i] + [a];
        assert sofar + [a] + [b] == first + RuleLines(wrapRule, keys[..i + 1]);
      }
      assert keys[..size] == keys;
    }

    /** serialize: the fields, the first five block lists, the rules in the order of `keys`, and the
        main nodes; the texts of what was written stay filtered. */
    method Serialize(ss: StringStream, keys: seq<string>)
      requires Enumerates(keys, wrapRule) && Fits(View())
      modifies this, ss
      ensures View() == AfterSerialize(old(View()))
      ensures ss.View() == Append(old(ss.View()), ClusterLines(old(View()), keys))
    {
      hide Append, Decimal, ListLines, RuleLines, NodeLines, Head, ClusterLines;
      ghost var t, f := ss.View(), View();
      ghost var flag := if isImportant then 1 else 0;
      ss.WriteLine(Decimal(if isImportant then 1 else 0));
      ss.WriteLine(Decimal(important));
      ss.WriteLine(Decimal(kind));
      ss.WriteLine(Decimal(name));
      ss.WriteLine(mainSectionPath);
      ghost var l0 := [Decimal(flag)];
      ghost var l1 := l0 + [Decimal(important)];
      ghost var l2 := l1 + [Decimal(kind)];
      ghost var l3 := l2 + [Decimal(name)];
      ghost var l4 := l3 + [mainSectionPath];
      AppendMore(t, l0, [Decimal(important)]);
      AppendMore(t, l1, [Decimal(kind)]);
      AppendMore(t, l2, [Decimal(name)]);
      AppendMore(t, l3, [mainSectionPath]);
      SerializeBlocks(ss);
      ghost var b := [Decimal(|Head(f.blocks)|)] + ListLines(Head(f.blocks));
      AppendMore(t, l4, b);
      SerializeRules(ss, keys);
      ghost var r := [Decimal(|f.wrapRule|)] + RuleLines(f.wrapRule, keys);
      AppendMore(t, l4 + b, r);
      ss.WriteLine(Decimal(|mainNode|));
      AppendMore(t, l4 + b + r, [Decimal(|f.mainNode|)]);
      mainNode := SerializeNodes(mainNode, ss);
      AppendMore(t, l4 + b + r + [Decimal(|f.mainNode|)], NodeLines(f.mainNode));
      ClusterLinesFlat(f, keys);
    }

    /** deserialize: the flags are replaced, the rest is added to what the object holds. */
    method Deserialize(ss: StringStream)
      modifies this, ss
      ensures (View(), ss.View()) == ReadCluster(old(ss.View()), old(View()))
    {
      hide GetLine, GetInteger, ReadList, ReadNode;
      var flag := ss.ReadInteger();
      isImportant := flag != 0;
      important := ss.ReadInteger();
      kind := ss.ReadInteger();
      name := ss.ReadInteger();
      mainSectionPath := ss.ReadLine();
      var size := ss.ReadInteger();
      DeserializeBlocks(ss, size);
      size := ss.ReadInteger();
      DeserializeRules(ss, size);
      size := ss.ReadInteger();
      var nodes := DeserializeNodes(ss, size);
      mainNode := mainNode + nodes;
    }

    method DeserializeBlocks(ss: StringStream, size: int32)
      modifies `blocks, ss
      ensures blocks == old(blocks) + ReadLists(old(ss.View()), Count(size)).0
      ensures ss.View() == ReadLists(old(ss.View()), Count(size)).1
    {
      hide ReadList;
      ghost var all := ReadLists(old(ss.View()), Count(size));
      for i := 0 to Count(size)
        invariant old(blocks) + all.0 == blocks + ReadLists(ss.View(), Count(size) - i).0
        invariant all.1 == ReadLists(ss.View(), Count(size) - i).1
      {
        ghost var more := ReadLists(ss.View(), Count(size) - i).0;
        var l := DeserializeList(ss);
        assert more == [l] + ReadLists(ss.View(), Count(size) - i - 1).0;
        blocks := blocks + [l];
      }
      assert blocks + [] == blocks;
    }

    method DeserializeRules(ss: StringStream, size: int32)
      modifies `wrapRule, ss
      ensures (wrapRule, ss.View()) == ReadRules(old(ss.View()), Count(size), old(wrapRule))
    {
      hide GetLine;
      for i := 0 to Count(size)
        invariant ReadRules(old(ss.View()), Count(size), old(wrapRule)) == ReadRules(ss.View(), Count(size) - i, wrapRule)
      {
        var a := ss.ReadLine();
        var b := ss.ReadLine();
        wrapRule := Insert(wrapRule, a, b);
      }
    }

    /** Through a new stream into a new object. */
    method RoundTrip(keys: seq<string>) returns (copy: BlockCluster)
      requires Enumerates(keys, wrapRule) && Fits(View())
      modifies this
      ensures fresh(copy) && View() == AfterSerialize(old(View()))
      ensures copy.View() == Expected(old(View())) <==> Readable(old(View()))
    {
      hide ReadCluster, ClusterLines, AfterSerialize, Expected, Readable;
      var ss := new StringStream();
      Serialize(ss, keys);
      copy := new BlockCluster();
      ghost var f := old(View());
      assert ss.View() == Waiting(ClusterLines(f, keys), "") by {
        assert "" + Written(ClusterLines(f, keys)) == Written(ClusterLines(f, keys)) + "";
      }
      copy.Deserialize(ss);
      RoundTripIff(f, keys);
    }
  }
}
