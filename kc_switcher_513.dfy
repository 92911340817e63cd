/** kcSwitcher 0.5.1.3, as the standalone file and as the jQuery plugin: the
    page is queried through the selectors `getItemsSelector` writes, and the
    class names of each element are abstracted to a set, of which the active
    class is one member that `addClass` adds, `removeClass` takes away and
    `hasClass` tests; the string editing and trimming jQuery does is not
    modelled. Of what is modelled here, the two files differ only in what
    `addHandler` does with a `null` group; they also differ in the object's
    global name and in how `init` is called at load, which the model leaves
    out. */
module KcSwitcher513 {
  import opened Js
  import opened Events
  import opened Grouping
  import opened Settings
  import opened Selector513
  import KcSwitcher514

  /** Which of the two 0.5.1.3 files. */
  datatype Variant = Standalone | Plugin

  /** `getGroupForElement`: the link attribute whenever the element has one,
      even an empty one, else the content attribute. */
  function GroupForElement(e: Node, n: Names): Option<string> {
    if Attr(e, n.linkOfGroup).None? then Attr(e, n.contentOfGroup) else Attr(e, n.linkOfGroup)
  }

  /** `getItemKey`. */
  function ItemKey(e: Node, n: Names): Option<string> {
    Attr(e, n.keyInGroup)
  }

  /** The group of a selected item is defined; a link item's group is its
      link attribute, and a content item without a link attribute has its
      content attribute as group. Either way it passes the group filter. */
  lemma GroupOfItem(e: Node, n: Names, kind: ItemKind, group: Option<string>, key: Option<string>)
    requires IsItem(e, n, kind, group, key)
    ensures GroupForElement(e, n).Some? && ItemKey(e, n).Some? && Admits(key, ItemKey(e, n))
    ensures kind == Link ==> GroupForElement(e, n) == Attr(e, n.linkOfGroup) && Admits(group, GroupForElement(e, n))
    ensures kind == Content && Attr(e, n.linkOfGroup).None? ==>
              GroupForElement(e, n) == Attr(e, n.contentOfGroup) && Admits(group, GroupForElement(e, n))
  {
  }

  /** The two versions resolve the same group for the same attributes except
      when the link attribute is the empty string: 0.5.1.4 then falls back to
      the content attribute, 0.5.1.3 keeps the empty link group. */
  lemma GroupResolutionVersions(attrs: map<string, string>, className: string, classes: set<string>, n: Names)
    ensures KcSwitcher514.GroupForElement(KcSwitcher514.Element(attrs, className), n) == GroupForElement(Node(attrs, classes), n)
            <==>
            !(n.linkOfGroup in attrs && attrs[n.linkOfGroup] == "") || (n.contentOfGroup in attrs && attrs[n.contentOfGroup] == "")
  {
  }

  /** `removeClass(activeClass)` and `addClass(activeClass)` on one node. */
  function WithoutClass(e: Node, a: string): Node {
    e.(classes := e.classes - {a})
  }

  function WithClass(e: Node, a: string): Node {
    e.(classes := e.classes + {a})
  }

  /** The page after `unActivateAll(group)`: the class is removed from every
      node the both-kinds selector of the group keeps. */
  function Cleared(p: seq<Node>, n: Names, group: Option<string>): (r: seq<Node>)
    ensures |r| == |p|
    ensures forall i :: 0 <= i < |p| ==> r[i].attrs == p[i].attrs
  {
    var s := ItemsSelector(n, Both, group, None);
    seq(|p|, i requires 0 <= i < |p| => if Matches(p[i], s) then WithoutClass(p[i], n.activeClass) else p[i])
  }

  /** The page after the `addClass` line of `setActiveKey(group, key)`. */
  function Marked(p: seq<Node>, n: Names, group: Option<string>, key: Option<string>): (r: seq<Node>)
    ensures |r| == |p|
    ensures forall i :: 0 <= i < |p| ==> r[i].attrs == p[i].attrs
  {
    var s := ItemsSelector(n, Both, group, key);
    seq(|p|, i requires 0 <= i < |p| => if Matches(p[i], s) then WithClass(p[i], n.activeClass) else p[i])
  }

  /** `setActiveKey(group, key)`: ask the before-change handlers; unless one
      vetoes, clear the group, mark the matching nodes and tell the
      after-change handlers. */
  function Activate(env: Env, w: World<Node>, group: Option<string>, key: Option<string>): (r: World<Node>)
    ensures |r.page| == |w.page|
    ensures forall i :: 0 <= i < |w.page| ==> r.page[i].attrs == w.page[i].attrs
    ensures |r.calls| >= |w.calls| && r.calls[..|w.calls|] == w.calls
  {
    var before := FireEvent(env.handlers, group, key, BeforeChange);
    if !before.proceed then World(w.page, w.calls + before.calls)
    else
      var after := FireEvent(env.handlers, group, key, AfterChange);
      World(Marked(Cleared(w.page, env.names, group), env.names, group, key), w.calls + before.calls + after.calls)
  }

  /** A vetoed change leaves the page as it was and tells no after-change
      handler. */
  lemma ActivateVetoed(env: Env, w: World<Node>, group: Option<string>, key: Option<string>)
    requires !FireEvent(env.handlers, group, key, BeforeChange).proceed
    ensures Activate(env, w, group, key).page == w.page
    ensures forall c :: c in Activate(env, w, group, key).calls[|w.calls|..] ==> c.event == BeforeChange
  {
    var r := Activate(env, w, group, key);
    assert r.calls[|w.calls|..] == FireEvent(env.handlers, group, key, BeforeChange).calls;
  }

  /** What an allowed change should do to one node, stated directly: a node
      of the group with the key gets the class, any other node of the group
      loses it, a node outside the group stays as it is. */
  function Activated(e: Node, n: Names, group: Option<string>, key: Option<string>): Node {
    if IsItem(e, n, Both, group, key) then WithClass(e, n.activeClass)
    else if IsItem(e, n, Both, group, None) then WithoutClass(e, n.activeClass)
    else e
  }

  /** One node through the clearing and the marking. */
  lemma ActivatedNode(e: Node, n: Names, group: Option<string>, key: Option<string>)
    requires SafeNames(n) && SafeValue(group) && SafeValue(key)
    ensures var u := if Matches(e, ItemsSelector(n, Both, group, None)) then WithoutClass(e, n.activeClass) else e;
            (if Matches(u, ItemsSelector(n, Both, group, key)) then WithClass(u, n.activeClass) else u) ==
            Activated(e, n, group, key)
  {
    var a := n.activeClass;
    ItemsSelectorMeaning(e, n, Both, group, None);
    var u := if Matches(e, ItemsSelector(n, Both, group, None)) then WithoutClass(e, a) else e;
    ItemsSelectorMeaning(u, n, Both, group, key);
    assert IsItem(u, n, Both, group, key) == IsItem(e, n, Both, group, key);
    if IsItem(e, n, Both, group, key) {
      assert (e.classes - {a}) + {a} == e.classes + {a};
    }
  }

  /** An allowed change, for safe names and filters, does to every node what
      `Activated` says. */
  lemma ActivateExact(env: Env, w: World<Node>, group: Option<string>, key: Option<string>)
    requires FireEvent(env.handlers, group, key, BeforeChange).proceed
    requires SafeNames(env.names) && SafeValue(group) && SafeValue(key)
    ensures forall i :: 0 <= i < |w.page| ==> Activate(env, w, group, key).page[i] == Activated(w.page[i], env.names, group, key)
  {
    var n := env.names;
    var u := Cleared(w.page, n, group);
    forall i | 0 <= i < |w.page|
      ensures Activate(env, w, group, key).page[i] == Activated(w.page[i], n, group, key)
    {
      ActivatedNode(w.page[i], n, group, key);
      assert Marked(u, n, group, key)[i] == Activated(w.page[i], n, group, key);
    }
  }

  /** After an allowed change exactly the nodes of the group with the key
      carry the active class within the group, nodes outside the group are
      untouched, and no other class of any node changes. */
  lemma ActivateMarks(env: Env, w: World<Node>, group: Option<string>, key: Option<string>)
    requires FireEvent(env.handlers, group, key, BeforeChange).proceed
    requires SafeNames(env.names) && SafeValue(group) && SafeValue(key)
    ensures var r := Activate(env, w, group, key).page;
            forall i :: 0 <= i < |w.page| && IsItem(w.page[i], env.names, Both, group, None) ==>
              (env.names.activeClass in r[i].classes <==> IsItem(w.page[i], env.names, Both, group, key))
    ensures var r := Activate(env, w, group, key).page;
            forall i :: 0 <= i < |w.page| && !IsItem(w.page[i], env.names, Both, group, None) ==> r[i] == w.page[i]
    ensures var r := Activate(env, w, group, key).page;
            forall i :: 0 <= i < |w.page| ==> r[i].classes - {env.names.activeClass} == w.page[i].classes - {env.names.activeClass}
  {
    ActivateExact(env, w, group, key);
  }

  /** Setting the same key twice leaves the page as setting it once. */
  lemma ActivateTwice(env: Env, w: World<Node>, group: Option<string>, key: Option<string>)
    requires FireEvent(env.handlers, group, key, BeforeChange).proceed
    requires SafeNames(env.names) && SafeValue(group) && SafeValue(key)
    ensures Activate(env, Activate(env, w, group, key), group, key).page == Activate(env, w, group, key).page
  {
    var n := env.names;
    var once := Activate(env, w, group, key);
    ActivateExact(env, w, group, key);
    ActivateExact(env, once, group, key);
    forall i | 0 <= i < |once.page|
      ensures Activated(once.page[i], n, group, key) == once.page[i]
    {
      ActivatedSettles(w.page[i], n, group, key);
    }
  }

  /** One node activated twice is activated once. */
  lemma ActivatedSettles(e: Node, n: Names, group: Option<string>, key: Option<string>)
    ensures Activated(Activated(e, n, group, key), n, group, key) == Activated(e, n, group, key)
  {
    var once := Activated(e, n, group, key);
    assert IsItem(once, n, Both, group, key) == IsItem(e, n, Both, group, key);
    assert IsItem(once, n, Both, group, None) == IsItem(e, n, Both, group, None);
    if IsItem(e, n, Both, group, key) {
      assert (e.classes + {n.activeClass}) + {n.activeClass} == e.classes + {n.activeClass};
    } else if IsItem(e, n, Both, group, None) {
      assert (e.classes - {n.activeClass}) - {n.activeClass} == e.classes - {n.activeClass};
    }
  }

  /** A node `getActiveKey(group)` looks for. */
  predicate IsActiveContent(e: Node, n: Names, group: Option<string>) {
    n.activeClass in e.classes && IsItem(e, n, Content, group, None)
  }

  /** `getActiveKey(group)`: throws without a group, else the key of the
      first active content node of the group, or None when there is none. */
  function ActiveKey(p: seq<Node>, n: Names, group: Option<string>): (r: Result<Option<string>>)
    ensures r.Fail? <==> group.None?
    ensures r.Fail? ==> r.error == MissingGroupKey
  {
    if group.None? then Fail(MissingGroupKey)
    else
      var found := Select(p, ActiveSelector(n, group));
      Ok(if found == [] then None else ItemKey(p[found[0]], n))
  }

  /** For safe names and group, `getActiveKey` finds a key exactly when the
      group has an active content node, and that key is the first one's. */
  lemma ActiveKeyMeaning(p: seq<Node>, n: Names, group: Option<string>)
    requires SafeNames(n) && group.Some? && SafeValue(group)
    ensures ActiveKey(p, n, group).Ok?
    ensures ActiveKey(p, n, group).value.Some? <==> exists i :: 0 <= i < |p| && IsActiveContent(p[i], n, group)
    ensures forall i :: 0 <= i < |p| && IsActiveContent(p[i], n, group) && (forall j :: 0 <= j < i ==> !IsActiveContent(p[j], n, group)) ==>
              ActiveKey(p, n, group).value == ItemKey(p[i], n)
  {
    var found := Select(p, ActiveSelector(n, group));
    forall i | 0 <= i < |p|
      ensures Matches(p[i], ActiveSelector(n, group)) <==> IsActiveContent(p[i], n, group)
    {
      ActiveSelectorMeaning(p[i], n, group);
    }
    if found != [] {
      assert IsActiveContent(p[found[0]], n, group);
      forall i | 0 <= i < |p| && IsActiveContent(p[i], n, group) && (forall j :: 0 <= j < i ==> !IsActiveContent(p[j], n, group))
        ensures found[0] == i
      {
        assert i in found;
        var k :| 0 <= k < |found| && found[k] == i;
        assert found[0] <= found[k];
      }
    } else {
      assert forall i :: 0 <= i < |p| && IsActiveContent(p[i], n, group) ==> i in found;
    }
  }

  /** A node that is active content of the group after an allowed change has
      the key that was set; a content node of the group with that key is
      active content afterwards. */
  lemma ActivatedActiveContent(e: Node, n: Names, group: Option<string>, key: Option<string>)
    requires key.Some?
    ensures IsActiveContent(Activated(e, n, group, key), n, group) ==> ItemKey(Activated(e, n, group, key), n) == key
    ensures IsItem(e, n, Content, group, key) ==> IsActiveContent(Activated(e, n, group, key), n, group)
  {
  }

  /** After an allowed `setActiveKey(group, key)` for a key some content node
      of the group has, `getActiveKey(group)` answers that key. */
  lemma SetThenGet(env: Env, w: World<Node>, group: Option<string>, key: Option<string>, i: nat)
    requires FireEvent(env.handlers, group, key, BeforeChange).proceed
    requires SafeNames(env.names) && group.Some? && SafeValue(group) && key.Some? && SafeValue(key)
    requires i < |w.page| && IsItem(w.page[i], env.names, Content, group, key)
    ensures ActiveKey(Activate(env, w, group, key).page, env.names, group) == Ok(key)
  {
    var n := env.names;
    var q := Activate(env, w, group, key).page;
    ActivateExact(env, w, group, key);
    ActivatedActiveContent(w.page[i], n, group, key);
    assert IsActiveContent(q[i], n, group);
    var first := FirstActive(q, n, group, i);
    ActivatedActiveContent(w.page[first], n, group, key);
    assert ItemKey(q[first], n) == key;
    ActiveKeyMeaning(q, n, group);
  }

  /** The first active content node of a page that has one. */
  lemma FirstActive(p: seq<Node>, n: Names, group: Option<string>, i: nat) returns (f: nat)
    requires i < |p| && IsActiveContent(p[i], n, group)
    ensures f <= i && IsActiveContent(p[f], n, group)
    ensures forall j :: 0 <= j < f ==> !IsActiveContent(p[j], n, group)
  {
    f := 0;
    while !IsActiveContent(p[f], n, group)
      invariant f <= i
      invariant forall j :: 0 <= j < f ==> !IsActiveContent(p[j], n, group)
      decreases i - f
    {
      f := f + 1;
    }
  }

  /** A node of the group loses the class to `unActivateAll(group)`. */
  lemma ClearedNode(e: Node, n: Names, group: Option<string>)
    requires SafeNames(n) && SafeValue(group)
    ensures !IsActiveContent(if Matches(e, ItemsSelector(n, Both, group, None)) then WithoutClass(e, n.activeClass) else e, n, group)
  {
    ItemsSelectorMeaning(e, n, Both, group, None);
  }

  /** After `unActivateAll(group)` the group has no active key. */
  lemma ClearedHasNoActiveKey(p: seq<Node>, n: Names, group: Option<string>)
    requires SafeNames(n) && group.Some? && SafeValue(group)
    ensures ActiveKey(Cleared(p, n, group), n, group) == Ok(None)
  {
    var q := Cleared(p, n, group);
    var s := ItemsSelector(n, Both, group, None);
    forall j | 0 <= j < |q|
      ensures !IsActiveContent(q[j], n, group)
    {
      ClearedNode(p[j], n, group);
      assert q[j] == if Matches(p[j], s) then WithoutClass(p[j], n.activeClass) else p[j];
    }
    ActiveKeyMeaning(q, n, group);
  }

  /** `fireLinkClick(element)`: activate the node's own group and key. */
  function Click(env: Env, w: World<Node>, i: nat): (r: World<Node>)
    requires i < |w.page|
    ensures |r.page| == |w.page|
    ensures forall j :: 0 <= j < |w.page| ==> r.page[j].attrs == w.page[j].attrs
  {
    Activate(env, w, GroupForElement(w.page[i], env.names), ItemKey(w.page[i], env.names))
  }

  /** Clicks on the nodes `ts`, one after another. */
  function ClickAll(env: Env, w: World<Node>, ts: seq<nat>): (r: World<Node>)
    requires forall j :: 0 <= j < |ts| ==> ts[j] < |w.page|
    ensures |r.page| == |w.page|
    ensures forall i :: 0 <= i < |w.page| ==> r.page[i].attrs == w.page[i].attrs
  {
    if ts == [] then w
    else Click(env, ClickAll(env, w, ts[..|ts| - 1]), ts[|ts| - 1])
  }

  /** Clicking `ts` one node further on. */
  lemma ClickAllStep(env: Env, w: World<Node>, ts: seq<nat>, t: nat)
    requires forall j :: 0 <= j < |ts| ==> ts[j] < |w.page|
    requires t < |w.page|
    ensures ClickAll(env, w, ts + [t]) == Click(env, ClickAll(env, w, ts), t)
  {
    assert (ts + [t])[..|ts|] == ts;
  }

  /** Nodes with the same attributes resolve the same group and key and are
      items alike. */
  lemma SameAttrs(e: Node, e': Node, n: Names)
    requires e.attrs == e'.attrs
    ensures GroupForElement(e, n) == GroupForElement(e', n) && ItemKey(e, n) == ItemKey(e', n)
    ensures forall group, key :: IsItem(e, n, Both, group, key) == IsItem(e', n, Both, group, key)
  {
  }

  /** The group and key of a click on node `t` can be written into the
      selectors unquoted, as can the attribute and class names. */
  predicate SafeClick(p: seq<Node>, n: Names, t: nat)
    requires t < |p|
  {
    SafeNames(n) && SafeValue(GroupForElement(p[t], n)) && SafeValue(ItemKey(p[t], n))
  }

  /** No before-change handler vetoes the group and key of a click on `t`. */
  predicate Allowed(env: Env, p: seq<Node>, t: nat)
    requires t < |p|
  {
    FireEvent(env.handlers, GroupForElement(p[t], env.names), ItemKey(p[t], env.names), BeforeChange).proceed
  }

  /** Every click on `ts` is safe. */
  predicate SafeClicks(p: seq<Node>, n: Names, ts: seq<nat>) {
    forall j :: 0 <= j < |ts| && ts[j] < |p| ==> SafeClick(p, n, ts[j])
  }

  /** No click on `ts` is vetoed. */
  predicate Unvetoed(env: Env, p: seq<Node>, ts: seq<nat>) {
    forall j :: 0 <= j < |ts| && ts[j] < |p| ==> Allowed(env, p, ts[j])
  }

  /** Every node of `ts` carries the active class. */
  predicate AllMarked(p: seq<Node>, n: Names, ts: seq<nat>) {
    forall j :: 0 <= j < |ts| && ts[j] < |p| ==> n.activeClass in p[ts[j]].classes
  }

  /** A click leaves alone a node outside the group it activates. */
  lemma ClickSpares(env: Env, w: World<Node>, t: nat, i: nat)
    requires t < |w.page| && i < |w.page| && SafeClick(w.page, env.names, t)
    requires !IsItem(w.page[i], env.names, Both, GroupForElement(w.page[t], env.names), None)
    ensures Click(env, w, t).page[i] == w.page[i]
  {
    var g := GroupForElement(w.page[t], env.names);
    var k := ItemKey(w.page[t], env.names);
    if FireEvent(env.handlers, g, k, BeforeChange).proceed {
      ActivateExact(env, w, g, k);
    } else {
      ActivateVetoed(env, w, g, k);
    }
  }

  /** An allowed click on a node with a group and a key leaves that node
      carrying the active class. */
  lemma ClickMarksOwn(env: Env, w: World<Node>, t: nat)
    requires t < |w.page| && SafeClick(w.page, env.names, t) && Allowed(env, w.page, t)
    requires GroupForElement(w.page[t], env.names).Some? && ItemKey(w.page[t], env.names).Some?
    ensures env.names.activeClass in Click(env, w, t).page[t].classes
  {
    var g := GroupForElement(w.page[t], env.names);
    var k := ItemKey(w.page[t], env.names);
    assert IsItem(w.page[t], env.names, Both, g, k);
    ActivateExact(env, w, g, k);
  }

  /** Clicks leave alone every node outside the groups they activate,
      whatever the handlers answer. */
  lemma {:induction false} ClickAllUntouched(env: Env, w: World<Node>, ts: seq<nat>, i: nat)
    requires forall j :: 0 <= j < |ts| ==> ts[j] < |w.page|
    requires i < |w.page| && SafeClicks(w.page, env.names, ts)
    requires forall j :: 0 <= j < |ts| ==> !IsItem(w.page[i], env.names, Both, GroupForElement(w.page[ts[j]], env.names), None)
    ensures ClickAll(env, w, ts).page[i] == w.page[i]
  {
    if ts != [] {
      var last := |ts| - 1;
      var t := ts[last];
      ClickAllUntouched(env, w, ts[..last], i);
      var mid := ClickAll(env, w, ts[..last]);
      SameAttrs(mid.page[t], w.page[t], env.names);
      SameAttrs(mid.page[i], w.page[i], env.names);
      ClickSpares(env, mid, t, i);
    }
  }

  /** One more allowed click keeps the marks of nodes that are no items of
      the clicked group and marks the clicked node too. */
  lemma ClickExtendsMarks(env: Env, w: World<Node>, ks: seq<nat>, t: nat)
    requires t < |w.page| && forall j :: 0 <= j < |ks| ==> ks[j] < |w.page|
    requires SafeClick(w.page, env.names, t) && Allowed(env, w.page, t)
    requires GroupForElement(w.page[t], env.names).Some? && ItemKey(w.page[t], env.names).Some?
    requires AllMarked(w.page, env.names, ks)
    requires forall j :: 0 <= j < |ks| ==> !IsItem(w.page[ks[j]], env.names, Both, GroupForElement(w.page[t], env.names), None)
    ensures AllMarked(Click(env, w, t).page, env.names, ks + [t])
  {
    var n := env.names;
    ClickMarksOwn(env, w, t);
    var r := Click(env, w, t);
    var ks' := ks + [t];
    forall j | 0 <= j < |ks'| && ks'[j] < |r.page|
      ensures n.activeClass in r.page[ks'[j]].classes
    {
      if j < |ks| {
        var s := ks[j];
        assert ks'[j] == s;
        ClickSpares(env, w, t, s);
      }
    }
  }

  /** The clicks on `ts` are safe and not vetoed, hit nodes with a group
      and a key, and no later click's group takes in a node clicked
      earlier. */
  predicate Activatable(env: Env, p: seq<Node>, ts: seq<nat>) {
    SafeClicks(p, env.names, ts) && Unvetoed(env, p, ts) &&
    (forall j :: 0 <= j < |ts| && ts[j] < |p| ==>
       GroupForElement(p[ts[j]], env.names).Some? && ItemKey(p[ts[j]], env.names).Some?) &&
    (forall a, b :: 0 <= a < b < |ts| && ts[a] < |p| && ts[b] < |p| ==>
       !IsItem(p[ts[a]], env.names, Both, GroupForElement(p[ts[b]], env.names), None))
  }

  /** Activatable clicks stay activatable without the last one, and the
      last one is then a safe, allowed click whose group takes in none of
      the nodes clicked before. */
  lemma ActivatableSplit(env: Env, p: seq<Node>, init: seq<nat>, t: nat)
    requires t < |p| && forall j :: 0 <= j < |init| ==> init[j] < |p|
    requires Activatable(env, p, init + [t])
    ensures Activatable(env, p, init)
    ensures SafeClick(p, env.names, t) && Allowed(env, p, t)
    ensures GroupForElement(p[t], env.names).Some? && ItemKey(p[t], env.names).Some?
    ensures forall j :: 0 <= j < |init| ==>
              !IsItem(p[init[j]], env.names, Both, GroupForElement(p[t], env.names), None)
  {
    var ts := init + [t];
    assert forall j :: 0 <= j < |init| ==> ts[j] == init[j];
    assert ts[|init|] == t;
  }

  /** What ActivatableSplit says of the last click carries over to a page
      of the same attributes. */
  lemma LastClickMoves(env: Env, p: seq<Node>, q: seq<Node>, init: seq<nat>, t: nat)
    requires t < |p| && forall j :: 0 <= j < |init| ==> init[j] < |p|
    requires |q| == |p| && forall i :: 0 <= i < |p| ==> q[i].attrs == p[i].attrs
    requires SafeClick(p, env.names, t) && Allowed(env, p, t)
    requires GroupForElement(p[t], env.names).Some? && ItemKey(p[t], env.names).Some?
    requires forall j :: 0 <= j < |init| ==>
               !IsItem(p[init[j]], env.names, Both, GroupForElement(p[t], env.names), None)
    ensures SafeClick(q, env.names, t) && Allowed(env, q, t)
    ensures GroupForElement(q[t], env.names).Some? && ItemKey(q[t], env.names).Some?
    ensures forall j :: 0 <= j < |init| ==>
              !IsItem(q[init[j]], env.names, Both, GroupForElement(q[t], env.names), None)
  {
    SameAttrs(q[t], p[t], env.names);
    forall j | 0 <= j < |init|
      ensures !IsItem(q[init[j]], env.names, Both, GroupForElement(q[t], env.names), None)
    {
      SameAttrs(q[init[j]], p[init[j]], env.names);
    }
  }

  /** Clicks, none vetoed, on nodes with a group and a key leave every
      clicked node carrying the active class, provided no later click's
      group takes in a node clicked earlier. A node's group is its link
      attribute, but its content attribute puts it into a second group
      too: LaterClickUnmarks shows that the proviso is needed. */
  lemma {:induction false} ClickAllActivates(env: Env, w: World<Node>, ts: seq<nat>)
    requires forall j :: 0 <= j < |ts| ==> ts[j] < |w.page|
    requires Activatable(env, w.page, ts)
    ensures AllMarked(ClickAll(env, w, ts).page, env.names, ts)
  {
    if ts != [] {
      var init := ts[..|ts| - 1];
      var t := ts[|ts| - 1];
      var mid := ClickAll(env, w, init);
      assert init + [t] == ts;
      ActivatableSplit(env, w.page, init, t);
      LastClickMoves(env, w.page, mid.page, init, t);
      ClickAllActivates(env, w, init);
      ClickExtendsMarks(env, mid, init, t);
    }
  }

  /** An allowed click clears a node of the group it activates that lacks
      its key. */
  lemma ClickClears(env: Env, w: World<Node>, t: nat, i: nat)
    requires t < |w.page| && i < |w.page| && SafeClick(w.page, env.names, t) && Allowed(env, w.page, t)
    requires IsItem(w.page[i], env.names, Both, GroupForElement(w.page[t], env.names), None)
    requires !IsItem(w.page[i], env.names, Both, GroupForElement(w.page[t], env.names), ItemKey(w.page[t], env.names))
    ensures env.names.activeClass !in Click(env, w, t).page[i].classes
  {
    var g := GroupForElement(w.page[t], env.names);
    var k := ItemKey(w.page[t], env.names);
    ActivateExact(env, w, g, k);
  }

  /** The proviso of ClickAllActivates is needed: a clicked node that is
      also an item of a group clicked later, under another key, loses the
      class again. For instance a node with link attribute `a`, content
      attribute `b` and key `1` is marked by its own click on group `a`,
      then cleared by a click on a node of group `b` with key `2`. By
      ClickAllStep, `Click(env, Click(env, w, s), t)` is what `activateGroups`
      does when it clicks `s` and then `t`. */
  lemma LaterClickUnmarks(env: Env, w: World<Node>, s: nat, t: nat)
    requires s < |w.page| && t < |w.page|
    requires SafeClick(w.page, env.names, s) && Allowed(env, w.page, s)
    requires SafeClick(w.page, env.names, t) && Allowed(env, w.page, t)
    requires GroupForElement(w.page[s], env.names).Some? && ItemKey(w.page[s], env.names).Some?
    requires ItemKey(w.page[t], env.names).Some? && ItemKey(w.page[s], env.names) != ItemKey(w.page[t], env.names)
    requires IsItem(w.page[s], env.names, Both, GroupForElement(w.page[t], env.names), None)
    ensures env.names.activeClass in Click(env, w, s).page[s].classes
    ensures env.names.activeClass !in Click(env, Click(env, w, s), t).page[s].classes
  {
    var n := env.names;
    ClickMarksOwn(env, w, s);
    var mid := Click(env, w, s);
    SameAttrs(mid.page[t], w.page[t], n);
    SameAttrs(mid.page[s], w.page[s], n);
    ClickClears(env, mid, t, s);
  }

  /** The property key under which `activateGroups` files node `i`. */
  function GroupKey(p: seq<Node>, n: Names, i: nat): string
    requires i < |p|
  {
    UndefinedPropKey(GroupForElement(p[i], n))
  }

  /** The record `activateGroups` keeps for every node of the page: its
      group key, its position, and `hasClass`, which answers `true` or
      `false` but never `undefined`. */
  function Records(p: seq<Node>, n: Names): (r: seq<Member>)
    ensures |r| == |p| && Indexed(r)
    ensures forall i :: 0 <= i < |p| ==> r[i].group == GroupKey(p, n, i)
    ensures forall i :: 0 <= i < |p| ==> r[i].flag != FUndefined
    ensures forall i :: 0 <= i < |p| ==> (r[i].flag == FTrue <==> n.activeClass in p[i].classes)
  {
    seq(|p|, i requires 0 <= i < |p| =>
      Member(GroupKey(p, n, i), i, if n.activeClass in p[i].classes then FTrue else FFalse))
  }

  /** No node of `elems` in group `name` has the active class. */
  predicate NoneActive(p: seq<Node>, n: Names, elems: seq<nat>, name: string)
    requires forall k :: 0 <= k < |elems| ==> elems[k] < |p|
  {
    forall j :: 0 <= j < |elems| && GroupKey(p, n, elems[j]) == name ==> n.activeClass !in p[elems[j]].classes
  }

  /** Since `hasClass` answers `true` or `false`, a group's `hasActive` counts
      its active nodes and is falsy exactly when none is active. */
  lemma TallyFalsyIffNoneActive(p: seq<Node>, n: Names, elems: seq<nat>, name: string)
    requires forall k :: 0 <= k < |elems| ==> elems[k] < |p|
    ensures !TallyTruthy(TallyOf(FlagsNamed(Pick(Records(p, n), elems), name))) <==> NoneActive(p, n, elems, name)
  {
    var recs := Records(p, n);
    var ms := Pick(recs, elems);
    forall i | 0 <= i < |ms|
      ensures ms[i].flag != FUndefined
      ensures ms[i].group == GroupKey(p, n, elems[i])
      ensures ms[i].flag == FTrue <==> n.activeClass in p[elems[i]].classes
    {
      assert ms[i] == recs[elems[i]];
    }
    TallyFalsyIffNoTrue(ms, name);
  }

  /** `activateGroups` clicks exactly the first node of every group that is
      not ignored and has no active node. */
  lemma ClickedGroups(p: seq<Node>, n: Names, elems: seq<nat>, ignored: seq<string>)
    requires forall k :: 0 <= k < |elems| ==> elems[k] < |p|
    ensures forall t :: t in Clicked(Records(p, n), elems, ignored) <==>
              exists j :: 0 <= j < |elems| && elems[j] == t && LeadsGroup(Records(p, n), elems, j) &&
                GroupKey(p, n, t) !in ignored && NoneActive(p, n, elems, GroupKey(p, n, t))
  {
    var recs := Records(p, n);
    ClickedIffLeads(recs, elems, ignored);
    forall j | 0 <= j < |elems|
      ensures !TallyTruthy(TallyOf(FlagsNamed(Pick(recs, elems), recs[elems[j]].group))) <==>
              NoneActive(p, n, elems, GroupKey(p, n, elems[j]))
    {
      TallyFalsyIffNoneActive(p, n, elems, GroupKey(p, n, elems[j]));
    }
  }

  /** The `keyContentSwitcher` object (standalone) or `jQuery.keyContentSwitcher`
      (plugin) over a fixed page. */
  class Switcher {
    var linkOfGroup: string
    var contentOfGroup: string
    var keyInGroup: string
    var activeClass: string
    var prefix: string
    var ignoredToActivateGroups: seq<string>
    /** `_set`, and that `applySettings` has been deleted. */
    var settingsApplied: bool
    /** `init` has run and been deleted. */
    var initialized: bool
    var totalEventsHandlers: map<string, Handler>
    var groupEventsHandlers: map<string, GroupSlot>
    /** Every user handler invoked so far, in order. */
    var calls: seq<Call>
    /** The document's elements, in document order. */
    const page: array<Node>
    const variant: Variant

    function NamesOf(): Names
      reads this`linkOfGroup, this`contentOfGroup, this`keyInGroup, this`activeClass
    {
      Names(linkOfGroup, contentOfGroup, keyInGroup, activeClass)
    }

    function HandlersOf(): Handlers
      reads this`totalEventsHandlers, this`groupEventsHandlers
    {
      Handlers(totalEventsHandlers, groupEventsHandlers)
    }

    function EnvOf(): Env
      reads this`linkOfGroup, this`contentOfGroup, this`keyInGroup, this`activeClass,
            this`totalEventsHandlers, this`groupEventsHandlers
    {
      Env(NamesOf(), HandlersOf())
    }

    function WorldOf(): World<Node>
      reads this`calls, page
    {
      World(page[..], calls)
    }

    /** The object as the script creates it. */
    constructor (page: array<Node>, variant: Variant)
      ensures this.page == page && this.variant == variant
      ensures NamesOf() == DefaultNames && prefix == DefaultPrefix && ignoredToActivateGroups == []
      ensures !settingsApplied && !initialized
      ensures HandlersOf() == Handlers(map[], map[]) && calls == []
    {
      linkOfGroup := DefaultNames.linkOfGroup;
      contentOfGroup := DefaultNames.contentOfGroup;
      keyInGroup := DefaultNames.keyInGroup;
      activeClass := DefaultNames.activeClass;
      prefix := DefaultPrefix;
      ignoredToActivateGroups := [];
      settingsApplied := false;
      initialized := false;
      totalEventsHandlers := map[];
      groupEventsHandlers := map[];
      calls := [];
      this.page := page;
      this.variant := variant;
    }

    /** `applySettings(options)`: the options overwrite the settings, then the
        prefix is put in front of the three attribute names. It deletes
        itself, so a second call fails and changes nothing. */
    method ApplySettings(o: Options) returns (ok: bool)
      modifies this`linkOfGroup, this`contentOfGroup, this`keyInGroup, this`activeClass, this`prefix,
               this`ignoredToActivateGroups, this`settingsApplied
      ensures ok == !old(settingsApplied) && settingsApplied
      ensures ok ==> NamesOf() == Prefixed(Merged(old(NamesOf()), o), o.prefix.GetOr(old(prefix))) &&
                     ignoredToActivateGroups == o.ignoredToActivateGroups.GetOr(old(ignoredToActivateGroups))
      ensures !ok ==> NamesOf() == old(NamesOf()) && ignoredToActivateGroups == old(ignoredToActivateGroups)
    {
      if settingsApplied {
        return false;
      }
      prefix := o.prefix.GetOr(prefix);
      linkOfGroup := o.linkOfGroup.GetOr(linkOfGroup);
      contentOfGroup := o.contentOfGroup.GetOr(contentOfGroup);
      keyInGroup := o.keyInGroup.GetOr(keyInGroup);
      activeClass := o.activeClass.GetOr(activeClass);
      ignoredToActivateGroups := o.ignoredToActivateGroups.GetOr(ignoredToActivateGroups);
      contentOfGroup := prefix + contentOfGroup;
      linkOfGroup := prefix + linkOfGroup;
      keyInGroup := prefix + keyInGroup;
      settingsApplied := true;
      ok := true;
    }

    /** `addHandler(event, group, handler)`: the standalone file stores `null`
        under the event's name for a `null` group, the plugin registers a
        global handler. */
    method AddHandler(event: string, group: Option<string>, handler: Handler)
      modifies this`totalEventsHandlers, this`groupEventsHandlers
      ensures variant == Standalone ==> HandlersOf() == RegisterStandalone(old(HandlersOf()), event, group, handler)
      ensures variant == Plugin ==> HandlersOf() == Register(old(HandlersOf()), event, group, handler)
    {
      if group.None? {
        if variant == Standalone {
          groupEventsHandlers := groupEventsHandlers[event := NullSlot];
        } else {
          totalEventsHandlers := totalEventsHandlers[event := handler];
        }
        return;
      }
      if !(group.value in groupEventsHandlers && groupEventsHandlers[group.value].Table?) {
        groupEventsHandlers := groupEventsHandlers[group.value := Table(map[])];
      }
      groupEventsHandlers := groupEventsHandlers[group.value := Table(groupEventsHandlers[group.value].handlers[event := handler])];
    }

    /** `tabChanged(group, handler)`. */
    method TabChanged(group: Option<string>, handler: Handler)
      modifies this`totalEventsHandlers, this`groupEventsHandlers
      ensures variant == Standalone ==> HandlersOf() == RegisterStandalone(old(HandlersOf()), AfterChange, group, handler)
      ensures variant == Plugin ==> HandlersOf() == Register(old(HandlersOf()), AfterChange, group, handler)
    {
      AddHandler(AfterChange, group, handler);
    }

    /** `beforeTabChanged(group, handler)`. */
    method BeforeTabChanged(group: Option<string>, handler: Handler)
      modifies this`totalEventsHandlers, this`groupEventsHandlers
      ensures variant == Standalone ==> HandlersOf() == RegisterStandalone(old(HandlersOf()), BeforeChange, group, handler)
      ensures variant == Plugin ==> HandlersOf() == Register(old(HandlersOf()), BeforeChange, group, handler)
    {
      AddHandler(BeforeChange, group, handler);
    }

    /** `getActiveKey(group)`, with `checkGroupKey` first. */
    method GetActiveKey(group: Option<string>) returns (r: Result<Option<string>>)
      ensures r == ActiveKey(page[..], NamesOf(), group)
    {
      if group.None? {
        return Fail(MissingGroupKey);
      }
      var found := Select(page[..], "." + activeClass + ItemsSelector(NamesOf(), Content, group, None));
      r := Ok(if |found| > 0 then ItemKey(page[found[0]], NamesOf()) else None);
    }

    /** `getContents(group, key)`: the content items of the group with the
        key, in document order. */
    method GetContents(group: Option<string>, key: Option<string>) returns (r: seq<nat>)
      ensures r == Select(page[..], ItemsSelector(NamesOf(), Content, group, key))
      ensures SafeNames(NamesOf()) && SafeValue(group) && SafeValue(key) ==>
                forall i :: 0 <= i < page.Length ==> (i in r <==> IsItem(page[i], NamesOf(), Content, group, key))
    {
      r := Select(page[..], ItemsSelector(NamesOf(), Content, group, key));
      if SafeNames(NamesOf()) && SafeValue(group) && SafeValue(key) {
        forall i | 0 <= i < page.Length
          ensures i in r <==> IsItem(page[i], NamesOf(), Content, group, key)
        {
          ItemsSelectorMeaning(page[i], NamesOf(), Content, group, key);
        }
      }
    }

    /** `getLinks(group, key)`: the link items of the group with the key, in
        document order. */
    method GetLinks(group: Option<string>, key: Option<string>) returns (r: seq<nat>)
      ensures r == Select(page[..], ItemsSelector(NamesOf(), Link, group, key))
      ensures SafeNames(NamesOf()) && SafeValue(group) && SafeValue(key) ==>
                forall i :: 0 <= i < page.Length ==> (i in r <==> IsItem(page[i], NamesOf(), Link, group, key))
    {
      r := Select(page[..], ItemsSelector(NamesOf(), Link, group, key));
      if SafeNames(NamesOf()) && SafeValue(group) && SafeValue(key) {
        forall i | 0 <= i < page.Length
          ensures i in r <==> IsItem(page[i], NamesOf(), Link, group, key)
        {
          ItemsSelectorMeaning(page[i], NamesOf(), Link, group, key);
        }
      }
    }

    /** `unActivateAll(group)`: `removeClass` on the selected nodes. */
    method UnActivateAll(group: Option<string>)
      modifies page
      ensures page[..] == Cleared(old(page[..]), NamesOf(), group)
    {
      var s := ItemsSelector(NamesOf(), Both, group, None);
      forall i | 0 <= i < page.Length && Matches(page[i], s) {
        page[i] := WithoutClass(page[i], activeClass);
      }
    }

    /** The `addClass` line of `setActiveKey`. */
    method MarkAll(group: Option<string>, key: Option<string>)
      modifies page
      ensures page[..] == Marked(old(page[..]), NamesOf(), group, key)
    {
      var s := ItemsSelector(NamesOf(), Both, group, key);
      forall i | 0 <= i < page.Length && Matches(page[i], s) {
        page[i] := WithClass(page[i], activeClass);
      }
    }

    /** `fireEvent(group, key, event)`: the invoked handlers are logged. */
    method FireEventLogged(group: Option<string>, key: Option<string>, event: string) returns (proceed: bool)
      modifies this`calls
      ensures var d := FireEvent(HandlersOf(), group, key, event);
              proceed == d.proceed && calls == old(calls) + d.calls
    {
      var d := FireEvent(HandlersOf(), group, key, event);
      calls := calls + d.calls;
      proceed := d.proceed;
    }

    /** `setActiveKey(group, key)`; it always answers false. */
    method SetActiveKey(group: Option<string>, key: Option<string>) returns (r: bool)
      modifies page, this`calls
      ensures !r
      ensures WorldOf() == Activate(EnvOf(), old(WorldOf()), group, key)
    {
      ghost var w0 := WorldOf();
      ghost var n := NamesOf();
      var canChange := FireEventLogged(group, key, BeforeChange);
      if canChange {
        UnActivateAll(group);
        MarkAll(group, key);
        assert page[..] == Marked(Cleared(w0.page, n, group), n, group, key);
        var _ := FireEventLogged(group, key, AfterChange);
      }
      r := false;
    }

    /** `fireLinkClick(element)`. */
    method FireLinkClick(i: nat) returns (r: bool)
      requires i < page.Length
      modifies page, this`calls
      ensures !r
      ensures EnvOf() == old(EnvOf())
      ensures WorldOf() == Click(EnvOf(), old(WorldOf()), i)
    {
      var groupName := GroupForElement(page[i], NamesOf());
      var contentKey := ItemKey(page[i], NamesOf());
      r := SetActiveKey(groupName, contentKey);
    }

    /** The collecting loop of `activateGroups`, the `each` over the nodes. */
    method CollectGroups(elements: seq<nat>) returns (groups: seq<Group>)
      requires forall j :: 0 <= j < |elements| ==> elements[j] < page.Length
      ensures groups == GroupsOf(Pick(Records(page[..], NamesOf()), elements))
    {
      ghost var ms := Pick(Records(page[..], NamesOf()), elements);
      groups := [];
      for j := 0 to |elements|
        invariant groups == GroupsOf(ms[..j])
      {
        var element := page[elements[j]];
        var key := UndefinedPropKey(GroupForElement(element, NamesOf()));
        var flag := if activeClass in element.classes then FTrue else FFalse;
        assert ms[j] == Member(key, elements[j], flag);
        InsertInPlace(groups, ms[j]);
        GroupsOfStep(ms, j);
        var at := Find(groups, key);
        if at < 0 {
          groups := groups + [Group(key, Num(0), [])];
          at := |groups| - 1;
        }
        var g := groups[at];
        groups := groups[at := Group(key, AddFlag(g.tally, flag), g.members + [elements[j]])];
      }
      assert ms[..|elements|] == ms;
    }

    /** The selecting loop of `activateGroups`, the `for ... in` over the
        groups: click the first node of every group that is not ignored, is
        not empty and has no truthy `hasActive`. */
    method ClickGroups(groups: seq<Group>, ignoredGroupKeys: seq<string>)
      requires Bounded(groups, page.Length)
      modifies page, this`calls
      ensures WorldOf() == ClickAll(EnvOf(), old(WorldOf()), BoundedTargets(groups, ignoredGroupKeys, page.Length))
    {
      ghost var w0 := WorldOf();
      ghost var env := EnvOf();
      for j := 0 to |groups|
        invariant AllBelow(Targets(groups[..j], ignoredGroupKeys), |w0.page|)
        invariant WorldOf() == ClickAll(env, w0, Targets(groups[..j], ignoredGroupKeys))
      {
        var group := groups[j];
        ghost var done := Targets(groups[..j], ignoredGroupKeys);
        ghost var next := Targets(groups[..j + 1], ignoredGroupKeys);
        BoundedStep(groups, ignoredGroupKeys, page.Length, j);
        if !(group.name in ignoredGroupKeys || |group.members| <= 0 || TallyTruthy(group.tally)) {
          assert next == done + [group.members[0]];
          ClickAllStep(env, w0, done, group.members[0]);
          var _ := FireLinkClick(group.members[0]);
        } else {
          assert next == done;
        }
      }
      assert groups[..|groups|] == groups;
    }

    /** `activateGroups(jqSelector, ignoredGroupKeys)`: collect the selected
        nodes by group, then click the first node of every group that is not
        ignored and has no truthy `hasActive`. */
    method ActivateGroups(jqSelector: string, ignoredGroupKeys: seq<string>)
      modifies page, this`calls
      ensures WorldOf() == ClickAll(EnvOf(), old(WorldOf()),
                                    Clicked(Records(old(page[..]), NamesOf()), Select(old(page[..]), jqSelector), ignoredGroupKeys))
    {
      var elements := Select(page[..], jqSelector);
      var groups := CollectGroups(elements);
      GroupsBounded(Pick(Records(page[..], NamesOf()), elements), page.Length);
      ClickGroups(groups, ignoredGroupKeys);
    }

    /** `activateGroup(group)`: the content nodes of the group, none ignored. */
    method ActivateGroup(group: Option<string>)
      modifies page, this`calls
      ensures WorldOf() == ClickAll(EnvOf(), old(WorldOf()),
                                    Clicked(Records(old(page[..]), NamesOf()),
                                            Select(old(page[..]), ItemsSelector(NamesOf(), Content, group, None)), []))
    {
      ActivateGroups(ItemsSelector(NamesOf(), Content, group, None), []);
    }

    /** `init()`: apply the default settings unless `applySettings` already
        ran, then activate every content group on the page that is not
        ignored. The click listener it installs is `FireLinkClick`. It
        deletes itself, so a second call fails and changes nothing. */
    method Init() returns (ok: bool)
      modifies this, page
      ensures ok == !old(initialized)
      ensures !ok ==> unchanged(this) && unchanged(page)
      ensures ok ==> initialized && settingsApplied && HandlersOf() == old(HandlersOf())
      ensures ok ==> NamesOf() == if old(settingsApplied) then old(NamesOf()) else Prefixed(old(NamesOf()), old(prefix))
      ensures ok ==> WorldOf() == ClickAll(EnvOf(), old(WorldOf()),
                                           Clicked(Records(old(page[..]), NamesOf()),
                                                   Select(old(page[..]), ItemsSelector(NamesOf(), Content, None, None)),
                                                   old(ignoredToActivateGroups)))
    {
      if initialized {
        return false;
      }
      ghost var w0 := WorldOf();
      ghost var ignored := ignoredToActivateGroups;
      if !settingsApplied {
        var _ := ApplySettings(NoOptions);
      }
      assert WorldOf() == w0 && ignoredToActivateGroups == ignored;
      ActivateAll();
      ghost var w1 := WorldOf();
      ghost var env := EnvOf();
      initialized := true;
      assert WorldOf() == w1 && EnvOf() == env;
      ok := true;
    }

    /** The last step of `init`: activate every content group on the page
        that is not ignored. */
    method ActivateAll()
      modifies page, this`calls
      ensures WorldOf() == ClickAll(EnvOf(), old(WorldOf()),
                                    Clicked(Records(old(page[..]), NamesOf()),
                                            Select(old(page[..]), ItemsSelector(NamesOf(), Content, None, None)),
                                            ignoredToActivateGroups))
    {
      ActivateGroups(ItemsSelector(NamesOf(), Content, None, None), ignoredToActivateGroups);
    }
  }
}
