/** The selector side of kcSwitcher 0.5.1.3, the same in the standalone file
    and in the jQuery plugin: `getItemsSelector` builds a CSS selector, and
    the page is queried through it. The selector engine is modelled for the
    selectors the switcher writes: comma-separated alternatives made of class
    tests `.name` and attribute tests `[name]` / `[name=value]`. */
module Selector513 {
  import opened Js
  import opened Settings
  import opened ClassTokens

  /** A page element: its attributes and its set of classes. */
  datatype Node = Node(attrs: map<string, string>, classes: set<string>)

  /** `jQuery(element).attr(name)`: None stands for `undefined`. */
  function Attr(e: Node, name: string): Option<string> {
    if name in e.attrs then Some(e.attrs[name]) else None
  }

  /** `kind & checked` is non-zero, for `checked` one of the two single bits. */
  predicate HasBit(kind: ItemKind, checked: ItemKind)
    requires checked != Both
  {
    (Bits(kind) / Bits(checked)) % 2 == 1
  }

  /** `"=" + v` when a filter value is given, nothing when it is `null`. */
  function EqPart(v: Option<string>): string {
    if v.None? then "" else "=" + v.value
  }

  /** `getSubSelect(checked)` inside `getItemsSelector(kind, group, key)`. */
  function SubSelect(n: Names, kind: ItemKind, checked: ItemKind, group: Option<string>, key: Option<string>): string
    requires checked != Both
  {
    if HasBit(kind, checked)
    then "[" + (if checked == Content then n.contentOfGroup else n.linkOfGroup) + EqPart(group) + "]["
         + n.keyInGroup + EqPart(key) + "]"
    else ""
  }

  /** `getItemsSelector(kind, group, key)`. */
  function ItemsSelector(n: Names, kind: ItemKind, group: Option<string>, key: Option<string>): string {
    var selector := SubSelect(n, kind, Link, group, key);
    var selector' := if kind == Both then selector + "," else selector;
    selector' + SubSelect(n, kind, Content, group, key)
  }

  /** The shapes `getItemsSelector` produces for each kind. */
  lemma SelectorShapes(n: Names, group: Option<string>, key: Option<string>)
    ensures ItemsSelector(n, Content, group, key) ==
            "[" + n.contentOfGroup + EqPart(group) + "][" + n.keyInGroup + EqPart(key) + "]"
    ensures ItemsSelector(n, Link, group, key) ==
            "[" + n.linkOfGroup + EqPart(group) + "][" + n.keyInGroup + EqPart(key) + "]"
    ensures ItemsSelector(n, Both, group, key) ==
            ItemsSelector(n, Link, group, key) + "," + ItemsSelector(n, Content, group, key)
  {
  }

  /** One simple selector: a class test `.name` or an attribute test
      `[name]` / `[name=value]`. */
  datatype Simple = ClassIs(name: string) | AttrIs(name: string, value: Option<string>)

  function RenderSimple(t: Simple): string {
    match t
    case ClassIs(c) => "." + c
    case AttrIs(a, v) => "[" + a + EqPart(v) + "]"
  }

  /** A compound selector: simple selectors written one after another. */
  function RenderCompound(ts: seq<Simple>): string {
    if ts == [] then "" else RenderSimple(ts[0]) + RenderCompound(ts[1..])
  }

  /** A selector group: alternatives separated by commas. */
  function RenderGroup(cs: seq<seq<Simple>>): string
    requires cs != []
  {
    if |cs| == 1 then RenderCompound(cs[0]) else RenderCompound(cs[0]) + "," + RenderGroup(cs[1..])
  }

  /** The selector `getItemsSelector(kind, group, key)` writes, as a value. */
  function Structured(n: Names, kind: ItemKind, group: Option<string>, key: Option<string>): (cs: seq<seq<Simple>>)
    ensures cs != []
  {
    (if HasBit(kind, Link) then [[AttrIs(n.linkOfGroup, group), AttrIs(n.keyInGroup, key)]] else []) +
    (if HasBit(kind, Content) then [[AttrIs(n.contentOfGroup, group), AttrIs(n.keyInGroup, key)]] else [])
  }

  /** Two attribute tests written one after the other. */
  lemma {:induction false} RenderPair(a: string, v: Option<string>, b: string, w: Option<string>)
    ensures RenderCompound([AttrIs(a, v), AttrIs(b, w)]) == "[" + a + EqPart(v) + "][" + b + EqPart(w) + "]"
  {
    var ts := [AttrIs(a, v), AttrIs(b, w)];
    var rest := [AttrIs(b, w)];
    assert ts[1..] == rest && rest[1..] == [];
    var y := "[" + b + EqPart(w) + "]";
    assert RenderCompound(rest) == y + RenderCompound([]);
    assert RenderCompound(ts) == "[" + a + EqPart(v) + "]" + y;
    JoinBrackets("[" + a + EqPart(v), b, EqPart(w));
  }

  /** Closing one bracket and opening the next. */
  lemma JoinBrackets(x: string, b: string, e: string)
    ensures x + "]" + ("[" + b + e + "]") == x + "][" + b + e + "]"
  {
    var l := x + "]" + ("[" + b + e + "]");
    var r := x + "][" + b + e + "]";
    assert |l| == |r|;
    forall i | 0 <= i < |l|
      ensures l[i] == r[i]
    {
      if i < |x| + 2 {
        assert l[i] == (x + "][")[i];
      } else {
        assert l[i] == (b + e + "]")[i - |x| - 2];
      }
    }
  }

  /** A group of one alternative is that alternative. */
  lemma {:induction false} RenderOne(c: seq<Simple>)
    ensures RenderGroup([c]) == RenderCompound(c)
  {
  }

  /** A group of two alternatives is the two joined by a comma. */
  lemma {:induction false} RenderTwo(l: seq<Simple>, c: seq<Simple>)
    ensures RenderGroup([l, c]) == RenderCompound(l) + "," + RenderCompound(c)
  {
    assert [l, c][1..] == [c];
    RenderOne(c);
  }

  /** `getItemsSelector` renders the structured selector. */
  lemma ItemsSelectorRenders(n: Names, kind: ItemKind, group: Option<string>, key: Option<string>)
    ensures ItemsSelector(n, kind, group, key) == RenderGroup(Structured(n, kind, group, key))
  {
    var l := [AttrIs(n.linkOfGroup, group), AttrIs(n.keyInGroup, key)];
    var c := [AttrIs(n.contentOfGroup, group), AttrIs(n.keyInGroup, key)];
    RenderPair(n.linkOfGroup, group, n.keyInGroup, key);
    RenderPair(n.contentOfGroup, group, n.keyInGroup, key);
    SelectorShapes(n, group, key);
    match kind
    case Content =>
      assert Structured(n, kind, group, key) == [c];
      RenderOne(c);
    case Link =>
      assert Structured(n, kind, group, key) == [l];
      RenderOne(l);
    case Both =>
      assert Structured(n, kind, group, key) == [l, c];
      RenderTwo(l, c);
  }

  /** The first position of `s` holding one of `cs`, or `|s|`. */
  function FirstOf(s: string, cs: string): (r: nat)
    ensures r <= |s|
    ensures forall i :: 0 <= i < r ==> s[i] !in cs
    ensures r < |s| ==> s[r] in cs
  {
    if s == [] then 0 else if s[0] in cs then 0 else 1 + FirstOf(s[1..], cs)
  }

  /** A prefix free of `cs` is skipped over. */
  lemma {:induction false} FirstOfAfter(x: string, y: string, cs: string)
    requires forall i :: 0 <= i < |x| ==> x[i] !in cs
    ensures FirstOf(x + y, cs) == |x| + FirstOf(y, cs)
  {
    if x != [] {
      FirstOfAfter(x[1..], y, cs);
      assert (x + y)[0] == x[0] && x[0] !in cs;
      assert (x + y)[1..] == x[1..] + y;
      assert FirstOf(x + y, cs) == 1 + FirstOf((x + y)[1..], cs);
    } else {
      assert x + y == y;
    }
  }

  /** The alternatives of a selector group, split at every comma. */
  function SplitComma(s: string): (r: seq<string>)
    ensures |r| >= 1
    decreases |s|
  {
    var i := FirstOf(s, ",");
    if i == |s| then [s] else [s[..i]] + SplitComma(s[i + 1..])
  }

  /** A compound selector read back, or None when it is not one the
      switcher writes. */
  function ParseCompound(s: string): Option<seq<Simple>>
    decreases |s|
  {
    if s == [] then Some([])
    else if s[0] == '.' then
      var rest := s[1..];
      var i := FirstOf(rest, ".[");
      if i == 0 then None
      else
        match ParseCompound(rest[i..])
        case None => None
        case Some(ts) => Some([ClassIs(rest[..i])] + ts)
    else if s[0] == '[' then
      var rest := s[1..];
      var j := FirstOf(rest, "]");
      if j == |rest| then None
      else
        var t := AttrBody(rest[..j]);
        if t.name == "" then None
        else
          match ParseCompound(rest[j + 1..])
          case None => None
          case Some(ts) => Some([t] + ts)
    else None
  }

  /** The test inside brackets: a name, and a value after the first `=`. */
  function AttrBody(body: string): Simple {
    var e := FirstOf(body, "=");
    if e == |body| then AttrIs(body, None) else AttrIs(body[..e], Some(body[e + 1..]))
  }

  /** Every alternative read back. */
  function ParseAll(parts: seq<string>): Option<seq<seq<Simple>>> {
    if parts == [] then Some([])
    else
      match ParseCompound(parts[0])
      case None => None
      case Some(ts) =>
        match ParseAll(parts[1..])
        case None => None
        case Some(rest) => Some([ts] + rest)
  }

  /** A selector group read back. */
  function ParseGroup(s: string): Option<seq<seq<Simple>>> {
    ParseAll(SplitComma(s))
  }

  /** A character the selector engine reads unescaped in a name or an
      unquoted value: a word character, `-`, or a character from U+00C0 on. */
  predicate IdentChar(c: char) {
    ('a' <= c <= 'z') || ('A' <= c <= 'Z') || ('0' <= c <= '9') || c == '_' || c == '-' || c >= '\U{C0}'
  }

  /** Text made of such characters only. */
  predicate Ident(s: string) {
    forall i :: 0 <= i < |s| ==> IdentChar(s[i])
  }

  predicate ClassName(c: string) { c != "" && Ident(c) }
  predicate AttrName(a: string) { a != "" && Ident(a) }
  /** An unquoted value may be empty: `[a=]` tests for the empty value. */
  predicate AttrValue(v: string) { Ident(v) }

  predicate WellFormed(t: Simple) {
    match t
    case ClassIs(c) => ClassName(c)
    case AttrIs(a, v) => AttrName(a) && (v.None? || AttrValue(v.value))
  }

  /** Every simple selector of every alternative can be written plainly. */
  predicate AllWellFormed(cs: seq<seq<Simple>>) {
    forall i, j :: 0 <= i < |cs| && 0 <= j < |cs[i]| ==> WellFormed(cs[i][j])
  }

  /** A rendered compound selector is empty or starts a simple selector. */
  lemma RenderStart(ts: seq<Simple>)
    ensures RenderCompound(ts) == [] || RenderCompound(ts)[0] in ".["
  {
    if ts != [] {
      assert RenderCompound(ts)[0] == RenderSimple(ts[0])[0];
    }
  }

  /** Identifier text holds none of the characters `cs` when none of them is
      an identifier character. */
  lemma IdentAvoids(s: string, cs: string)
    requires Ident(s)
    requires forall k :: 0 <= k < |cs| ==> !IdentChar(cs[k])
    ensures forall i :: 0 <= i < |s| ==> s[i] !in cs
  {
  }

  /** The bracket body written for an attribute test has no closing bracket. */
  lemma BodyAvoidsBracket(a: string, v: Option<string>)
    requires AttrName(a) && (v.None? || AttrValue(v.value))
    ensures forall i :: 0 <= i < |a + EqPart(v)| ==> (a + EqPart(v))[i] !in "]"
  {
    IdentAvoids(a, "]");
    if v.Some? {
      IdentAvoids(v.value, "]");
      assert EqPart(v) == "=" + v.value;
    }
  }

  /** A class test at the front of a compound reads back. */
  lemma ParseClassFirst(c: string, rest: string)
    requires ClassName(c)
    requires rest == [] || rest[0] in ".["
    ensures ParseCompound("." + c + rest) ==
            match ParseCompound(rest)
            case None => None
            case Some(ts) => Some([ClassIs(c)] + ts)
  {
    var s := "." + c + rest;
    var r := c + rest;
    assert s[1..] == r;
    IdentAvoids(c, ".[");
    FirstOfAfter(c, rest, ".[");
    assert s[1..|c| + 1] == c && s[|c| + 1..] == rest;
    ParseDot(s, |c|);
  }

  /** A class test whose name ends at `i + 1` is read, then the rest. */
  lemma ParseDot(s: string, i: nat)
    requires 0 < i < |s| && s[0] == '.' && FirstOf(s[1..], ".[") == i
    ensures ParseCompound(s) ==
            match ParseCompound(s[i + 1..])
            case None => None
            case Some(ts) => Some([ClassIs(s[1..i + 1])] + ts)
  {
    var rest := s[1..];
    assert rest[..i] == s[1..i + 1] && rest[i..] == s[i + 1..];
  }

  /** An attribute test at the front of a compound reads back. */
  lemma ParseAttrFirst(a: string, v: Option<string>, rest: string)
    requires AttrName(a) && (v.None? || AttrValue(v.value))
    ensures ParseCompound("[" + a + EqPart(v) + "]" + rest) ==
            match ParseCompound(rest)
            case None => None
            case Some(ts) => Some([AttrIs(a, v)] + ts)
  {
    var body := a + EqPart(v);
    var s := "[" + a + EqPart(v) + "]" + rest;
    var r := body + ("]" + rest);
    assert s[1..] == r;
    BodyAvoidsBracket(a, v);
    FirstOfAfter(body, "]" + rest, "]");
    assert s[1..|body| + 1] == body && s[|body| + 2..] == rest;
    AttrBodyOf(a, v);
    ParseBracket(s, |body|);
  }

  /** A bracketed test whose closing bracket is at `j + 1` is read, then the rest. */
  lemma ParseBracket(s: string, j: nat)
    requires j + 1 < |s| && s[0] == '[' && FirstOf(s[1..], "]") == j
    requires AttrBody(s[1..j + 1]).name != ""
    ensures ParseCompound(s) ==
            match ParseCompound(s[j + 2..])
            case None => None
            case Some(ts) => Some([AttrBody(s[1..j + 1])] + ts)
  {
    var rest := s[1..];
    assert s != [] && s[0] != '.';
    assert rest[..j] == s[1..j + 1] && rest[j + 1..] == s[j + 2..];
  }

  /** The bracket body written for a test reads back as that test. */
  lemma AttrBodyOf(a: string, v: Option<string>)
    requires AttrName(a) && (v.None? || AttrValue(v.value))
    ensures AttrBody(a + EqPart(v)) == AttrIs(a, v)
  {
    var body := a + EqPart(v);
    IdentAvoids(a, "=");
    FirstOfAfter(a, EqPart(v), "=");
    if v.Some? {
      assert body[..|a|] == a && body[|a| + 1..] == v.value;
    } else {
      assert body == a;
    }
  }

  /** The first simple selector of a compound reads back. */
  lemma ParseFirst(t: Simple, rest: string)
    requires WellFormed(t)
    requires rest == [] || rest[0] in ".["
    ensures ParseCompound(RenderSimple(t) + rest) ==
            match ParseCompound(rest)
            case None => None
            case Some(ts) => Some([t] + ts)
  {
    match t
    case ClassIs(c) => ParseClassFirst(c, rest);
    case AttrIs(a, v) => ParseAttrFirst(a, v, rest);
  }

  /** A compound selector of plain parts reads back. */
  lemma {:induction false} ParseRenderCompound(ts: seq<Simple>)
    requires forall j :: 0 <= j < |ts| ==> WellFormed(ts[j])
    ensures ParseCompound(RenderCompound(ts)) == Some(ts)
  {
    if ts != [] {
      var tl := RenderCompound(ts[1..]);
      assert RenderCompound(ts) == RenderSimple(ts[0]) + tl;
      ParseRenderCompound(ts[1..]);
      RenderStart(ts[1..]);
      ParseFirst(ts[0], tl);
      assert [ts[0]] + ts[1..] == ts;
    }
  }

  /** A compound selector of plain parts has no comma. */
  lemma {:induction false} NoCommaInCompound(ts: seq<Simple>)
    requires forall j :: 0 <= j < |ts| ==> WellFormed(ts[j])
    ensures forall i :: 0 <= i < |RenderCompound(ts)| ==> RenderCompound(ts)[i] !in ","
  {
    if ts != [] {
      NoCommaInCompound(ts[1..]);
      var head := RenderSimple(ts[0]);
      assert forall i :: 0 <= i < |head| ==> head[i] !in ",";
    }
  }

  /** The texts of the alternatives. */
  function RenderEach(cs: seq<seq<Simple>>): (r: seq<string>)
    ensures |r| == |cs|
  {
    if cs == [] then [] else [RenderCompound(cs[0])] + RenderEach(cs[1..])
  }

  /** A comma-free text splits into itself. */
  lemma SplitSingle(head: string)
    requires forall i :: 0 <= i < |head| ==> head[i] != ','
    ensures SplitComma(head) == [head]
  {
    FirstOfAfter(head, "", ",");
    assert head + "" == head;
  }

  /** A comma-free text followed by a comma splits off first. */
  lemma SplitCons(head: string, tail: string)
    requires forall i :: 0 <= i < |head| ==> head[i] != ','
    ensures SplitComma(head + "," + tail) == [head] + SplitComma(tail)
  {
    var s := head + "," + tail;
    assert s == head + ("," + tail);
    FirstOfAfter(head, "," + tail, ",");
    assert FirstOf(s, ",") == |head|;
    assert s[..|head|] == head && s[|head| + 1..] == tail;
  }

  /** Well-formedness passes to the later alternatives. */
  lemma AllWellFormedTail(cs: seq<seq<Simple>>)
    requires cs != [] && AllWellFormed(cs)
    ensures AllWellFormed(cs[1..])
  {
    forall i, j | 0 <= i < |cs[1..]| && 0 <= j < |cs[1..][i]|
      ensures WellFormed(cs[1..][i][j])
    {
      assert cs[1..][i] == cs[i + 1];
    }
  }

  /** Splitting a selector group at its commas gives its alternatives back. */
  lemma {:induction false} SplitRendered(cs: seq<seq<Simple>>)
    requires cs != [] && AllWellFormed(cs)
    ensures SplitComma(RenderGroup(cs)) == RenderEach(cs)
  {
    var head := RenderCompound(cs[0]);
    NoCommaInCompound(cs[0]);
    if |cs| == 1 {
      SplitSingle(head);
    } else {
      AllWellFormedTail(cs);
      SplitRendered(cs[1..]);
      SplitCons(head, RenderGroup(cs[1..]));
    }
  }

  /** Every alternative of plain parts reads back. */
  lemma {:induction false} ParseAllRendered(cs: seq<seq<Simple>>)
    requires AllWellFormed(cs)
    ensures ParseAll(RenderEach(cs)) == Some(cs)
  {
    if cs != [] {
      var parts := RenderEach(cs);
      assert parts == [RenderCompound(cs[0])] + RenderEach(cs[1..]);
      assert parts[0] == RenderCompound(cs[0]) && parts[1..] == RenderEach(cs[1..]);
      ParseRenderCompound(cs[0]);
      AllWellFormedTail(cs);
      ParseAllRendered(cs[1..]);
      assert ParseAll(parts) == Some([cs[0]] + cs[1..]);
      assert [cs[0]] + cs[1..] == cs;
    }
  }

  /** Reading a selector group back inverts writing it, for plain parts. */
  lemma ParseRenderGroup(cs: seq<seq<Simple>>)
    requires cs != [] && AllWellFormed(cs)
    ensures ParseGroup(RenderGroup(cs)) == Some(cs)
  {
    SplitRendered(cs);
    ParseAllRendered(cs);
  }

  /** The attribute test `[name]` (present) or `[name=value]` (equal). */
  predicate HasAttr(e: Node, name: string, value: Option<string>) {
    name in e.attrs && (value.None? || e.attrs[name] == value.value)
  }

  /** A simple selector holds of a node. */
  predicate Holds(e: Node, t: Simple) {
    match t
    case ClassIs(c) => c in e.classes
    case AttrIs(a, v) => HasAttr(e, a, v)
  }

  /** A compound selector holds when each of its simple selectors does. */
  predicate HoldsAll(e: Node, ts: seq<Simple>) {
    forall j :: 0 <= j < |ts| ==> Holds(e, ts[j])
  }

  /** `jQuery(s)` keeps `e`: `s` reads back as a group and one alternative
      holds of `e`. A text outside the modelled subset keeps nothing. */
  predicate Matches(e: Node, s: string) {
    match ParseGroup(s)
    case None => false
    case Some(cs) => HoldsSome(e, cs)
  }

  /** `jQuery(s)`: the positions of the matching nodes, in document order. */
  function Select(p: seq<Node>, s: string): (r: seq<nat>)
    ensures forall j :: 0 <= j < |r| ==> r[j] < |p| && Matches(p[r[j]], s)
    ensures forall j, j' :: 0 <= j < j' < |r| ==> r[j] < r[j']
    ensures forall i :: 0 <= i < |p| && Matches(p[i], s) ==> i in r
  {
    if p == [] then []
    else
      var last := |p| - 1;
      Select(p[..last], s) + (if Matches(p[last], s) then [last] else [])
  }

  /** Attribute names and the active class can be written without escaping. */
  predicate SafeNames(n: Names) {
    AttrName(n.linkOfGroup) && AttrName(n.contentOfGroup) && AttrName(n.keyInGroup) && ClassName(n.activeClass)
  }

  /** A group or key filter that can be written without quoting. */
  predicate SafeValue(v: Option<string>) {
    v.None? || AttrValue(v.value)
  }

  /** What `getItemsSelector(kind, group, key)` selects, stated directly: a
      node with the key attribute (equal to `key` when given) and, for each
      bit of `kind`, the group attribute of that kind (equal to `group` when
      given). */
  predicate IsItem(e: Node, n: Names, kind: ItemKind, group: Option<string>, key: Option<string>) {
    HasAttr(e, n.keyInGroup, key) &&
    ((HasBit(kind, Link) && HasAttr(e, n.linkOfGroup, group)) ||
     (HasBit(kind, Content) && HasAttr(e, n.contentOfGroup, group)))
  }

  /** With safe names and filters every part of the structured selector is
      plain. */
  lemma StructuredWellFormed(n: Names, kind: ItemKind, group: Option<string>, key: Option<string>)
    requires SafeNames(n) && SafeValue(group) && SafeValue(key)
    ensures AllWellFormed(Structured(n, kind, group, key))
  {
  }

  /** With safe names and filters the selector text reads back as the
      structured selector. */
  lemma ItemsSelectorParses(n: Names, kind: ItemKind, group: Option<string>, key: Option<string>)
    requires SafeNames(n) && SafeValue(group) && SafeValue(key)
    ensures ParseGroup(ItemsSelector(n, kind, group, key)) == Some(Structured(n, kind, group, key))
  {
    ItemsSelectorRenders(n, kind, group, key);
    StructuredWellFormed(n, kind, group, key);
    ParseRenderGroup(Structured(n, kind, group, key));
  }

  /** A two-test compound holds when both tests do. */
  lemma HoldsPair(e: Node, a: string, v: Option<string>, b: string, w: Option<string>)
    ensures HoldsAll(e, [AttrIs(a, v), AttrIs(b, w)]) <==> HasAttr(e, a, v) && HasAttr(e, b, w)
  {
    var ts := [AttrIs(a, v), AttrIs(b, w)];
    if HasAttr(e, a, v) && HasAttr(e, b, w) {
      forall j | 0 <= j < |ts|
        ensures Holds(e, ts[j])
      {
      }
    }
    if HoldsAll(e, ts) {
      assert Holds(e, ts[0]) && Holds(e, ts[1]);
    }
  }

  /** Some alternative of a selector group holds of a node. */
  predicate HoldsSome(e: Node, cs: seq<seq<Simple>>) {
    exists i :: 0 <= i < |cs| && HoldsAll(e, cs[i])
  }

  /** The structured selector holds exactly of the items it describes. */
  lemma StructuredMeaning(e: Node, n: Names, kind: ItemKind, group: Option<string>, key: Option<string>)
    ensures HoldsSome(e, Structured(n, kind, group, key)) <==> IsItem(e, n, kind, group, key)
  {
    var cs := Structured(n, kind, group, key);
    var l := [AttrIs(n.linkOfGroup, group), AttrIs(n.keyInGroup, key)];
    var c := [AttrIs(n.contentOfGroup, group), AttrIs(n.keyInGroup, key)];
    HoldsPair(e, n.linkOfGroup, group, n.keyInGroup, key);
    HoldsPair(e, n.contentOfGroup, group, n.keyInGroup, key);
    match kind
    case Content =>
      assert cs == [c];
      if HoldsAll(e, c) {
        assert HoldsAll(e, cs[0]);
      }
    case Link =>
      assert cs == [l];
      if HoldsAll(e, l) {
        assert HoldsAll(e, cs[0]);
      }
    case Both =>
      assert cs == [l, c];
      if HoldsAll(e, l) {
        assert HoldsAll(e, cs[0]);
      }
      if HoldsAll(e, c) {
        assert HoldsAll(e, cs[1]);
      }
  }

  /** What the selector of `getItemsSelector(kind, group, key)` keeps, for safe
      names and filters. */
  lemma ItemsSelectorMeaning(e: Node, n: Names, kind: ItemKind, group: Option<string>, key: Option<string>)
    requires SafeNames(n) && SafeValue(group) && SafeValue(key)
    ensures Matches(e, ItemsSelector(n, kind, group, key)) <==> IsItem(e, n, kind, group, key)
  {
    ItemsSelectorParses(n, kind, group, key);
    StructuredMeaning(e, n, kind, group, key);
  }

  /** The selector of `getActiveKey(group)`: the active class in front of the
      content selector of the group. */
  function ActiveSelector(n: Names, group: Option<string>): string {
    "." + n.activeClass + ItemsSelector(n, Content, group, None)
  }

  /** A compound with a leading class test holds when the class is there and
      the rest holds. */
  lemma HoldsClassFirst(e: Node, a: string, ts: seq<Simple>)
    ensures HoldsAll(e, [ClassIs(a)] + ts) <==> a in e.classes && HoldsAll(e, ts)
  {
    var us := [ClassIs(a)] + ts;
    if a in e.classes && HoldsAll(e, ts) {
      forall j | 0 <= j < |us|
        ensures Holds(e, us[j])
      {
        if j > 0 {
          assert us[j] == ts[j - 1];
        }
      }
    }
    if HoldsAll(e, us) {
      assert Holds(e, us[0]);
      forall j | 0 <= j < |ts|
        ensures Holds(e, ts[j])
      {
        assert us[j + 1] == ts[j];
      }
    }
  }

  /** The active selector is one compound: the class test, then the content
      selector's two attribute tests. */
  lemma ActiveSelectorRenders(n: Names, group: Option<string>)
    ensures var c := [AttrIs(n.contentOfGroup, group), AttrIs(n.keyInGroup, None)];
            ActiveSelector(n, group) == RenderGroup([[ClassIs(n.activeClass)] + c])
  {
    var c := [AttrIs(n.contentOfGroup, group), AttrIs(n.keyInGroup, None)];
    ItemsSelectorRenders(n, Content, group, None);
    assert Structured(n, Content, group, None) == [c];
    var us := [ClassIs(n.activeClass)] + c;
    assert us[0] == ClassIs(n.activeClass) && us[1..] == c;
    assert RenderCompound(us) == "." + n.activeClass + RenderCompound(c);
  }

  /** The structured form of the active selector. */
  function ActiveStructured(n: Names, group: Option<string>): seq<seq<Simple>> {
    [[ClassIs(n.activeClass)] + [AttrIs(n.contentOfGroup, group), AttrIs(n.keyInGroup, None)]]
  }

  /** For safe names and group the active selector reads back as its
      structured form. */
  lemma ActiveSelectorParses(n: Names, group: Option<string>)
    requires SafeNames(n) && SafeValue(group)
    ensures ParseGroup(ActiveSelector(n, group)) == Some(ActiveStructured(n, group))
  {
    var cs := ActiveStructured(n, group);
    ActiveSelectorRenders(n, group);
    assert AllWellFormed(cs) by {
      forall i, j | 0 <= i < |cs| && 0 <= j < |cs[i]|
        ensures WellFormed(cs[i][j])
      {
        assert cs[i] == cs[0];
      }
    }
    ParseRenderGroup(cs);
  }

  /** The structured active selector holds of the active content items. */
  lemma ActiveStructuredMeaning(e: Node, n: Names, group: Option<string>)
    ensures HoldsSome(e, ActiveStructured(n, group)) <==> n.activeClass in e.classes && IsItem(e, n, Content, group, None)
  {
    var c := [AttrIs(n.contentOfGroup, group), AttrIs(n.keyInGroup, None)];
    var cs := ActiveStructured(n, group);
    HoldsClassFirst(e, n.activeClass, c);
    HoldsPair(e, n.contentOfGroup, group, n.keyInGroup, None);
    if HoldsAll(e, cs[0]) {
      assert HoldsSome(e, cs);
    }
  }

  /** `getActiveKey(group)` looks for the nodes that carry the active class
      and are content items of the group, for safe names and group. */
  lemma ActiveSelectorMeaning(e: Node, n: Names, group: Option<string>)
    requires SafeNames(n) && SafeValue(group)
    ensures Matches(e, ActiveSelector(n, group)) <==> n.activeClass in e.classes && IsItem(e, n, Content, group, None)
  {
    ActiveSelectorParses(n, group);
    ActiveStructuredMeaning(e, n, group);
  }

  /** The text of one sub-selector has a comma exactly when a name or a
      filter does. */
  lemma NoCommaInPair(a: string, v: Option<string>, b: string, w: Option<string>)
    requires AttrName(a) && AttrName(b) && SafeValue(v) && SafeValue(w)
    ensures ',' !in "[" + a + EqPart(v) + "][" + b + EqPart(w) + "]"
  {
    assert ',' !in a && ',' !in b;
    assert ',' !in EqPart(v) && ',' !in EqPart(w);
  }

  /** The selector holds a comma exactly for both kinds, for safe names and
      filters. */
  lemma CommaIffBoth(n: Names, kind: ItemKind, group: Option<string>, key: Option<string>)
    requires SafeNames(n) && SafeValue(group) && SafeValue(key)
    ensures ',' in ItemsSelector(n, kind, group, key) <==> kind == Both
  {
    SelectorShapes(n, group, key);
    NoCommaInPair(n.linkOfGroup, group, n.keyInGroup, key);
    NoCommaInPair(n.contentOfGroup, group, n.keyInGroup, key);
    if kind == Both {
      var l := ItemsSelector(n, Link, group, key);
      assert (l + "," + ItemsSelector(n, Content, group, key))[|l|] == ',';
    }
  }

  /** The text of one sub-selector has `=` exactly when a filter is given,
      for names without `=`. */
  lemma EqualsInPair(a: string, v: Option<string>, b: string, w: Option<string>)
    requires AttrName(a) && AttrName(b)
    ensures '=' in "[" + a + EqPart(v) + "][" + b + EqPart(w) + "]" <==> v.Some? || w.Some?
  {
    assert '=' !in a && '=' !in b;
    assert v.Some? ==> EqPart(v)[0] == '=';
    assert w.Some? ==> EqPart(w)[0] == '=';
  }

  /** The `=value` parts are left out exactly when the group and the key are
      `null`. */
  lemma EqualsIffFilter(n: Names, kind: ItemKind, group: Option<string>, key: Option<string>)
    requires AttrName(n.linkOfGroup) && AttrName(n.contentOfGroup) && AttrName(n.keyInGroup)
    ensures '=' in ItemsSelector(n, kind, group, key) <==> group.Some? || key.Some?
  {
    SelectorShapes(n, group, key);
    EqualsInPair(n.linkOfGroup, group, n.keyInGroup, key);
    EqualsInPair(n.contentOfGroup, group, n.keyInGroup, key);
  }
}
