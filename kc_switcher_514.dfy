/** kcSwitcher 0.5.1.4: the standalone version that scans the whole page
    itself and edits `className` strings with code taken from jQuery. */
module KcSwitcher514 {
  import opened Js
  import opened Events
  import opened Grouping
  import opened ClassTokens
  import opened Settings

  /** A page element: its attributes and its `className` string. */
  datatype Element = Element(attrs: map<string, string>, className: string)

  /** `element.getAttribute(name)`: None stands for `null`. */
  function GetAttribute(e: Element, name: string): Option<string> {
    if name in e.attrs then Some(e.attrs[name]) else None
  }

  /** The test `getElements` applies to `kind` for both attributes. Because
      `==` binds tighter than `&`, `kind & ItemType.link == ItemType.link` is
      `kind & true`, which is `kind & 1`; the content test is `kind & 1` too. */
  predicate KindTest(kind: ItemKind) {
    Bits(kind) % 2 == 1
  }

  /** `nameOfGroup` in `getElements`. */
  function GroupOfKind(e: Element, n: Names, kind: ItemKind): Option<string> {
    Or(if KindTest(kind) then GetAttribute(e, n.linkOfGroup) else None,
       if KindTest(kind) then GetAttribute(e, n.contentOfGroup) else None)
  }

  /** The condition under which `getElements(kind, group, key)` keeps an
      element; a None filter admits every value. */
  predicate Selected(e: Element, n: Names, kind: ItemKind, group: Option<string>, key: Option<string>) {
    var name := GroupOfKind(e, n, kind);
    var k := GetAttribute(e, n.keyInGroup);
    Truthy(name) && Admits(group, name) && Truthy(k) && Admits(key, k)
  }

  /** `getGroupForElement`: the link attribute when it is truthy, else the
      content attribute. */
  function GroupForElement(e: Element, n: Names): (r: Option<string>)
    ensures Truthy(GetAttribute(e, n.linkOfGroup)) ==> r == GetAttribute(e, n.linkOfGroup)
    ensures !Truthy(GetAttribute(e, n.linkOfGroup)) ==> r == GetAttribute(e, n.contentOfGroup)
  {
    Or(GetAttribute(e, n.linkOfGroup), GetAttribute(e, n.contentOfGroup))
  }

  /** `getItemKey`. */
  function ItemKey(e: Element, n: Names): Option<string> {
    GetAttribute(e, n.keyInGroup)
  }

  /** What `GroupForElement` and `ItemKey` mean for a selected element: for
      the kinds that select anything, an element is selected exactly when its
      group and key are truthy and pass the filters. */
  lemma SelectedByGroupAndKey(e: Element, n: Names, kind: ItemKind, group: Option<string>, key: Option<string>)
    ensures Selected(e, n, kind, group, key) <==>
              kind != Link &&
              Truthy(GroupForElement(e, n)) && Admits(group, GroupForElement(e, n)) &&
              Truthy(ItemKey(e, n)) && Admits(key, ItemKey(e, n))
  {
  }

  /** The indices, in document order, of the elements `getElements` returns. */
  function Query(p: seq<Element>, n: Names, kind: ItemKind, group: Option<string>, key: Option<string>): (r: seq<nat>)
    ensures forall j :: 0 <= j < |r| ==> r[j] < |p| && Selected(p[r[j]], n, kind, group, key)
    ensures forall j, j' :: 0 <= j < j' < |r| ==> r[j] < r[j']
    ensures forall i :: 0 <= i < |p| && Selected(p[i], n, kind, group, key) ==> i in r
  {
    if p == [] then []
    else
      var last := |p| - 1;
      Query(p[..last], n, kind, group, key) + (if Selected(p[last], n, kind, group, key) then [last] else [])
  }

  /** The precedence slip: a link query returns nothing, and a content query
      is the same as a query for both kinds. */
  lemma {:induction false} KindQuirk(p: seq<Element>, n: Names, group: Option<string>, key: Option<string>)
    ensures Query(p, n, Link, group, key) == []
    ensures Query(p, n, Content, group, key) == Query(p, n, Both, group, key)
  {
    if p != [] {
      var last := |p| - 1;
      KindQuirk(p[..last], n, group, key);
      assert GroupOfKind(p[last], n, Link) == None;
      assert GroupOfKind(p[last], n, Content) == GroupOfKind(p[last], n, Both);
      assert !Selected(p[last], n, Link, group, key);
      assert Selected(p[last], n, Content, group, key) == Selected(p[last], n, Both, group, key);
    }
  }

  /** Queries look only at attributes, never at class names. */
  lemma {:induction false} QueryReadsAttrs(p: seq<Element>, p': seq<Element>, n: Names, kind: ItemKind, group: Option<string>, key: Option<string>)
    requires |p| == |p'| && forall i :: 0 <= i < |p| ==> p[i].attrs == p'[i].attrs
    ensures Query(p, n, kind, group, key) == Query(p', n, kind, group, key)
  {
    if p != [] {
      var last := |p| - 1;
      QueryReadsAttrs(p[..last], p'[..last], n, kind, group, key);
      assert GetAttribute(p[last], n.linkOfGroup) == GetAttribute(p'[last], n.linkOfGroup);
      assert GetAttribute(p[last], n.contentOfGroup) == GetAttribute(p'[last], n.contentOfGroup);
      assert GetAttribute(p[last], n.keyInGroup) == GetAttribute(p'[last], n.keyInGroup);
    }
  }

  /** The page after `unActivateAll(group)`: every element a both-kinds query
      for the group selects has the active class removed. */
  function Unmarked(p: seq<Element>, n: Names, group: Option<string>): seq<Element> {
    seq(|p|, i requires 0 <= i < |p| =>
      if Selected(p[i], n, Both, group, None) then p[i].(className := RemovedClass(p[i].className, n.activeClass)) else p[i])
  }

  /** The page after the marking loop of `setActiveKey(group, key)`. */
  function Marked(p: seq<Element>, n: Names, group: Option<string>, key: Option<string>): seq<Element> {
    seq(|p|, i requires 0 <= i < |p| =>
      if Selected(p[i], n, Both, group, key) then p[i].(className := AddedClass(p[i].className, n.activeClass)) else p[i])
  }

  /** A selected element is unmarked by removing the active class. */
  lemma UnmarkedAt(p: seq<Element>, n: Names, group: Option<string>, t: nat)
    requires t < |p| && Selected(p[t], n, Both, group, None)
    ensures Unmarked(p, n, group)[t] == p[t].(className := RemovedClass(p[t].className, n.activeClass))
  {
  }

  /** Outside the selected elements, unmarking changes nothing. */
  lemma UnmarkedOutside(p: seq<Element>, n: Names, group: Option<string>, done: set<nat>)
    requires forall i :: 0 <= i < |p| && Selected(p[i], n, Both, group, None) ==> i in done
    ensures forall i :: 0 <= i < |p| && i !in done ==> Unmarked(p, n, group)[i] == p[i]
  {
  }

  /** A selected element is marked by adding the active class. */
  lemma MarkedAt(p: seq<Element>, n: Names, group: Option<string>, key: Option<string>, t: nat)
    requires t < |p| && Selected(p[t], n, Both, group, key)
    ensures Marked(p, n, group, key)[t] == p[t].(className := AddedClass(p[t].className, n.activeClass))
  {
  }

  /** Outside the selected elements, marking changes nothing. */
  lemma MarkedOutside(p: seq<Element>, n: Names, group: Option<string>, key: Option<string>, done: set<nat>)
    requires forall i :: 0 <= i < |p| && Selected(p[i], n, Both, group, key) ==> i in done
    ensures forall i :: 0 <= i < |p| && i !in done ==> Marked(p, n, group, key)[i] == p[i]
  {
  }

  /** Part way through a loop over an increasing list of indices `r`: `done`
      holds the first `j` of them, and they are all below the next one. */
  predicate Visited(r: seq<nat>, done: set<nat>, j: nat)
    requires j <= |r|
  {
    (forall k :: 0 <= k < j ==> r[k] in done) &&
    (j < |r| ==> forall x :: x in done ==> x < r[j])
  }

  /** One step of such a loop: the next index is new, and adding it keeps
      the shape. */
  lemma DoneStep(r: seq<nat>, done: set<nat>, j: nat)
    requires j < |r| && forall k, k' :: 0 <= k < k' < |r| ==> r[k] < r[k']
    requires Visited(r, done, j)
    ensures r[j] !in done
    ensures Visited(r, done + {r[j]}, j + 1)
  {
  }

  /** Once the loop has finished, every index of `r` is in `done`. */
  lemma QueryDone(r: seq<nat>, done: set<nat>)
    requires Visited(r, done, |r|)
    ensures forall i :: i in r ==> i in done
  {
  }

  /** `target` where `done` says so, `p` elsewhere: the page part way
      through a loop over the elements of a query. */
  function Overlay(p: seq<Element>, target: seq<Element>, done: set<nat>): (r: seq<Element>)
    requires |target| == |p|
    ensures |r| == |p|
  {
    seq(|p|, i requires 0 <= i < |p| => if i in done then target[i] else p[i])
  }

  /** Adding one more index to `done`. */
  lemma OverlayAdd(p: seq<Element>, target: seq<Element>, done: set<nat>, t: nat)
    requires |target| == |p| && t < |p|
    ensures Overlay(p, target, done)[t := target[t]] == Overlay(p, target, done + {t})
  {
  }

  /** Once `done` holds every index where `target` differs from `p`, the
      overlay is `target`. */
  lemma OverlayComplete(p: seq<Element>, target: seq<Element>, done: set<nat>)
    requires |target| == |p|
    requires forall i :: 0 <= i < |p| && i !in done ==> target[i] == p[i]
    ensures Overlay(p, target, done) == target
  {
  }

  /** The property key under which `activateGroups` files element `i`. */
  function GroupKey(p: seq<Element>, n: Names, i: nat): string
    requires i < |p|
  {
    PropKey(GroupForElement(p[i], n))
  }

  /** The record `activateGroups` keeps for every element of the page: its
      group key, its position, and `hasActiveClass`, which answers `true` or
      `undefined` but never `false`. */
  function Records(p: seq<Element>, n: Names): (r: seq<Member>)
    ensures |r| == |p| && Indexed(r)
    ensures forall i :: 0 <= i < |p| ==> r[i].group == GroupKey(p, n, i)
    ensures forall i :: 0 <= i < |p| ==> r[i].flag != FFalse
    ensures forall i :: 0 <= i < |p| ==> (r[i].flag == FTrue <==> HasActiveClass(p[i].className, n.activeClass))
  {
    seq(|p|, i requires 0 <= i < |p| =>
      Member(GroupKey(p, n, i), i, if HasActiveClass(p[i].className, n.activeClass) then FTrue else FUndefined))
  }

  /** Some element of `elems` in group `name` lacks the active class. */
  predicate SomeInactive(p: seq<Element>, n: Names, elems: seq<nat>, name: string)
    requires forall k :: 0 <= k < |elems| ==> elems[k] < |p|
  {
    exists j :: 0 <= j < |elems| && GroupKey(p, n, elems[j]) == name && !HasActiveClass(p[elems[j]].className, n.activeClass)
  }

  /** Since `hasActiveClass` answers `true` or `undefined`, a group's
      `hasActive` is falsy exactly when one of its elements is inactive. */
  lemma TallyFalsyIffSomeInactive(p: seq<Element>, n: Names, elems: seq<nat>, name: string)
    requires forall k :: 0 <= k < |elems| ==> elems[k] < |p|
    requires exists j :: 0 <= j < |elems| && GroupKey(p, n, elems[j]) == name
    ensures !TallyTruthy(TallyOf(FlagsNamed(Pick(Records(p, n), elems), name))) <==> SomeInactive(p, n, elems, name)
  {
    var recs := Records(p, n);
    var ms := Pick(recs, elems);
    forall i | 0 <= i < |ms|
      ensures ms[i].flag != FFalse
      ensures ms[i].group == GroupKey(p, n, elems[i])
      ensures ms[i].flag == FUndefined <==> !HasActiveClass(p[elems[i]].className, n.activeClass)
    {
      assert ms[i] == recs[elems[i]];
    }
    TallyFalsyIffUndefined(ms, name);
  }

  /** `activateGroups(elems, ignored)` clicks exactly the first element of
      every group that is not ignored and in which some element is inactive:
      a group is left alone only when all of its elements are active. */
  lemma ClickedGroups(p: seq<Element>, n: Names, elems: seq<nat>, ignored: seq<string>)
    requires forall k :: 0 <= k < |elems| ==> elems[k] < |p|
    ensures forall t :: t in Clicked(Records(p, n), elems, ignored) <==>
              exists j :: 0 <= j < |elems| && elems[j] == t && LeadsGroup(Records(p, n), elems, j) &&
                GroupKey(p, n, t) !in ignored && SomeInactive(p, n, elems, GroupKey(p, n, t))
  {
    var recs := Records(p, n);
    ClickedIffLeads(recs, elems, ignored);
    forall j | 0 <= j < |elems|
      ensures !TallyTruthy(TallyOf(FlagsNamed(Pick(recs, elems), recs[elems[j]].group))) <==>
              SomeInactive(p, n, elems, GroupKey(p, n, elems[j]))
    {
      TallyFalsyIffSomeInactive(p, n, elems, GroupKey(p, n, elems[j]));
    }
  }

  /** `setActiveKey(group, key)`: ask the before-change handlers; unless one
      vetoes, clear the group, mark the matching elements and tell the
      after-change handlers. */
  function Activate(env: Env, w: World<Element>, group: Option<string>, key: Option<string>): (r: World<Element>)
    ensures |r.page| == |w.page|
    ensures forall i :: 0 <= i < |w.page| ==> r.page[i].attrs == w.page[i].attrs
    ensures |r.calls| >= |w.calls| && r.calls[..|w.calls|] == w.calls
  {
    var before := FireEvent(env.handlers, group, key, BeforeChange);
    if !before.proceed then World(w.page, w.calls + before.calls)
    else
      var after := FireEvent(env.handlers, group, key, AfterChange);
      World(Marked(Unmarked(w.page, env.names, group), env.names, group, key), w.calls + before.calls + after.calls)
  }

  /** `fireLinkClick(element)`: activate the element's own group and key. */
  function Click(env: Env, w: World<Element>, i: nat): (r: World<Element>)
    requires i < |w.page|
    ensures |r.page| == |w.page|
    ensures forall j :: 0 <= j < |w.page| ==> r.page[j].attrs == w.page[j].attrs
  {
    Activate(env, w, GroupForElement(w.page[i], env.names), ItemKey(w.page[i], env.names))
  }

  /** Clicks on the elements `ts`, one after another. */
  function ClickAll(env: Env, w: World<Element>, ts: seq<nat>): (r: World<Element>)
    requires forall j :: 0 <= j < |ts| ==> ts[j] < |w.page|
    ensures |r.page| == |w.page|
    ensures forall i :: 0 <= i < |w.page| ==> r.page[i].attrs == w.page[i].attrs
  {
    if ts == [] then w
    else Click(env, ClickAll(env, w, ts[..|ts| - 1]), ts[|ts| - 1])
  }

  /** What the last step of `init` does: click, in order, the elements that
      `activateGroups` picks among the content elements of the page. */
  function ActivateDefaults(env: Env, w: World<Element>, ignored: seq<string>): (r: World<Element>)
    ensures |r.page| == |w.page|
    ensures forall i :: 0 <= i < |w.page| ==> r.page[i].attrs == w.page[i].attrs
  {
    var elems := Query(w.page, env.names, Content, None, None);
    ClickAll(env, w, Clicked(Records(w.page, env.names), elems, ignored))
  }

  /** Clicking `ts` one element further on. */
  lemma ClickAllStep(env: Env, w: World<Element>, ts: seq<nat>, t: nat)
    requires forall j :: 0 <= j < |ts| ==> ts[j] < |w.page|
    requires t < |w.page|
    ensures ClickAll(env, w, ts + [t]) == Click(env, ClickAll(env, w, ts), t)
  {
    assert (ts + [t])[..|ts|] == ts;
  }

  /** A vetoed change leaves the page as it was and tells no after-change
      handler. */
  lemma ActivateVetoed(env: Env, w: World<Element>, group: Option<string>, key: Option<string>)
    requires !FireEvent(env.handlers, group, key, BeforeChange).proceed
    ensures Activate(env, w, group, key).page == w.page
    ensures forall c :: c in Activate(env, w, group, key).calls[|w.calls|..] ==> c.event == BeforeChange
  {
    var r := Activate(env, w, group, key);
    assert r.calls[|w.calls|..] == FireEvent(env.handlers, group, key, BeforeChange).calls;
  }

  /** One element after an allowed `setActiveKey(group, key)`: cleared when
      it is in the group, then marked when it also has the key. */
  function Activated(e: Element, n: Names, group: Option<string>, key: Option<string>): Element {
    var u := if Selected(e, n, Both, group, None) then e.(className := RemovedClass(e.className, n.activeClass)) else e;
    if Selected(u, n, Both, group, key) then u.(className := AddedClass(u.className, n.activeClass)) else u
  }

  /** An allowed change acts on every element separately. */
  lemma ActivatePointwise(env: Env, w: World<Element>, group: Option<string>, key: Option<string>)
    requires FireEvent(env.handlers, group, key, BeforeChange).proceed
    ensures forall i :: 0 <= i < |w.page| ==>
              Activate(env, w, group, key).page[i] == Activated(w.page[i], env.names, group, key)
  {
    var n := env.names;
    var u := Unmarked(w.page, n, group);
    forall i | 0 <= i < |w.page|
      ensures Activate(env, w, group, key).page[i] == Activated(w.page[i], n, group, key)
    {
      assert Marked(u, n, group, key)[i] == Activated(w.page[i], n, group, key);
    }
  }

  /** What an allowed change does to one element: marked when it matches the
      group and key; unmarked when it is in the group only (if its class name
      uses no exotic white space); untouched outside the group. */
  lemma ActivatedElement(e: Element, n: Names, group: Option<string>, key: Option<string>)
    requires ValidToken(n.activeClass)
    ensures Activated(e, n, group, key).attrs == e.attrs
    ensures Selected(e, n, Both, group, key) ==> HasActiveClass(Activated(e, n, group, key).className, n.activeClass)
    ensures Selected(e, n, Both, group, None) && !Selected(e, n, Both, group, key) && PlainSpacing(e.className) ==>
              !HasActiveClass(Activated(e, n, group, key).className, n.activeClass)
    ensures !Selected(e, n, Both, group, None) ==> Activated(e, n, group, key) == e
    ensures PlainSpacing(e.className) ==> PlainSpacing(Activated(e, n, group, key).className)
    ensures forall b :: ValidToken(b) && b != n.activeClass && PlainSpacing(e.className) ==>
              (HasActiveClass(Activated(e, n, group, key).className, b) <==> HasActiveClass(e.className, b))
  {
    var a := n.activeClass;
    var u := if Selected(e, n, Both, group, None) then e.(className := RemovedClass(e.className, a)) else e;
    assert Selected(u, n, Both, group, key) == Selected(e, n, Both, group, key);
    if Selected(e, n, Both, group, key) {
      AddedHasActive(u.className, a);
    }
    if Selected(e, n, Both, group, None) && PlainSpacing(e.className) {
      RemovedHasNoActive(e.className, a);
    }
    if PlainSpacing(e.className) {
      HelpersKeepPlainSpacing(e.className, a);
      HelpersKeepPlainSpacing(u.className, a);
      forall b | ValidToken(b) && b != a
        ensures HasActiveClass(Activated(e, n, group, key).className, b) <==> HasActiveClass(e.className, b)
      {
        RemovedKeepsOthers(e.className, a, b);
        AddedKeepsOthers(u.className, a, b);
      }
    }
  }

  /** What an allowed change does to the page: the matching elements of the
      group carry the active class, the other elements of the group do not
      (when their class names use no exotic white space), and elements
      outside the group are untouched. */
  lemma ActivateMarks(env: Env, w: World<Element>, group: Option<string>, key: Option<string>)
    requires FireEvent(env.handlers, group, key, BeforeChange).proceed
    requires ValidToken(env.names.activeClass)
    ensures forall i :: 0 <= i < |w.page| && Selected(w.page[i], env.names, Both, group, key) ==>
              HasActiveClass(Activate(env, w, group, key).page[i].className, env.names.activeClass)
    ensures forall i :: 0 <= i < |w.page| && Selected(w.page[i], env.names, Both, group, None) &&
                        !Selected(w.page[i], env.names, Both, group, key) && PlainSpacing(w.page[i].className) ==>
              !HasActiveClass(Activate(env, w, group, key).page[i].className, env.names.activeClass)
    ensures forall i :: 0 <= i < |w.page| && !Selected(w.page[i], env.names, Both, group, None) ==>
              Activate(env, w, group, key).page[i] == w.page[i]
    ensures forall i, b :: 0 <= i < |w.page| && ValidToken(b) && b != env.names.activeClass && PlainSpacing(w.page[i].className) ==>
              (HasActiveClass(Activate(env, w, group, key).page[i].className, b) <==> HasActiveClass(w.page[i].className, b))
  {
    ActivatePointwise(env, w, group, key);
    forall i | 0 <= i < |w.page| {
      ActivatedElement(w.page[i], env.names, group, key);
    }
  }

  /** Activating the same key twice marks the same elements as once. */
  lemma ActivateTwice(env: Env, w: World<Element>, group: Option<string>, key: Option<string>)
    requires FireEvent(env.handlers, group, key, BeforeChange).proceed
    requires ValidToken(env.names.activeClass)
    requires forall i :: 0 <= i < |w.page| ==> PlainSpacing(w.page[i].className)
    ensures var once := Activate(env, w, group, key);
            forall i :: 0 <= i < |once.page| ==>
              (HasActiveClass(Activate(env, once, group, key).page[i].className, env.names.activeClass) <==>
               HasActiveClass(once.page[i].className, env.names.activeClass))
  {
    var n := env.names;
    var once := Activate(env, w, group, key);
    ActivatePointwise(env, w, group, key);
    ActivatePointwise(env, once, group, key);
    forall i | 0 <= i < |once.page|
      ensures HasActiveClass(Activate(env, once, group, key).page[i].className, n.activeClass) <==>
              HasActiveClass(once.page[i].className, n.activeClass)
    {
      ActivatedSettles(w.page[i], n, group, key);
    }
  }

  /** One element activated twice carries the active class as after once. */
  lemma ActivatedSettles(e: Element, n: Names, group: Option<string>, key: Option<string>)
    requires ValidToken(n.activeClass) && PlainSpacing(e.className)
    ensures var once := Activated(e, n, group, key);
            HasActiveClass(Activated(once, n, group, key).className, n.activeClass) <==>
            HasActiveClass(once.className, n.activeClass)
  {
    ActivatedElement(e, n, group, key);
    ActivatedElement(Activated(e, n, group, key), n, group, key);
  }

  /** `getActiveKey` does not look at class names, so clearing a group does
      not change its answer. */
  lemma ActiveKeyIgnoresClear(p: seq<Element>, n: Names, cleared: Option<string>, group: Option<string>)
    ensures Query(Unmarked(p, n, cleared), n, Content, group, None) == Query(p, n, Content, group, None)
  {
    QueryReadsAttrs(Unmarked(p, n, cleared), p, n, Content, group, None);
  }

  /** Elements with the same attributes resolve the same group and key and
      are selected alike. */
  lemma SameAttrs(e: Element, e': Element, n: Names)
    requires e.attrs == e'.attrs
    ensures GroupForElement(e, n) == GroupForElement(e', n) && ItemKey(e, n) == ItemKey(e', n)
    ensures forall group, key :: Selected(e, n, Both, group, key) == Selected(e', n, Both, group, key)
  {
  }

  /** A click leaves alone an element outside the group it activates. */
  lemma ClickSpares(env: Env, w: World<Element>, t: nat, i: nat)
    requires t < |w.page| && i < |w.page|
    requires !Selected(w.page[i], env.names, Both, GroupForElement(w.page[t], env.names), None)
    ensures Click(env, w, t).page[i] == w.page[i]
  {
    var g := GroupForElement(w.page[t], env.names);
    var k := ItemKey(w.page[t], env.names);
    if FireEvent(env.handlers, g, k, BeforeChange).proceed {
      ActivatePointwise(env, w, g, k);
    } else {
      ActivateVetoed(env, w, g, k);
    }
  }

  /** An allowed click on an element with a group and a key leaves that
      element carrying the active class. */
  lemma ClickMarksOwn(env: Env, w: World<Element>, t: nat)
    requires t < |w.page| && ValidToken(env.names.activeClass)
    requires Truthy(GroupForElement(w.page[t], env.names)) && Truthy(ItemKey(w.page[t], env.names))
    requires FireEvent(env.handlers, GroupForElement(w.page[t], env.names), ItemKey(w.page[t], env.names), BeforeChange).proceed
    ensures HasActiveClass(Click(env, w, t).page[t].className, env.names.activeClass)
  {
    var g := GroupForElement(w.page[t], env.names);
    var k := ItemKey(w.page[t], env.names);
    SelectedByGroupAndKey(w.page[t], env.names, Both, g, k);
    ActivatePointwise(env, w, g, k);
    ActivatedElement(w.page[t], env.names, g, k);
  }

  /** Clicks leave alone every element outside the groups they activate,
      whatever the handlers answer. */
  lemma {:induction false} ClickAllUntouched(env: Env, w: World<Element>, ts: seq<nat>, i: nat)
    requires forall j :: 0 <= j < |ts| ==> ts[j] < |w.page|
    requires i < |w.page|
    requires forall j :: 0 <= j < |ts| ==> !Selected(w.page[i], env.names, Both, GroupForElement(w.page[ts[j]], env.names), None)
    ensures ClickAll(env, w, ts).page[i] == w.page[i]
  {
    if ts != [] {
      var t := ts[|ts| - 1];
      ClickAllUntouched(env, w, ts[..|ts| - 1], i);
      var mid := ClickAll(env, w, ts[..|ts| - 1]);
      SameAttrs(mid.page[t], w.page[t], env.names);
      SameAttrs(mid.page[i], w.page[i], env.names);
      ClickSpares(env, mid, t, i);
    }
  }

  /** No before-change handler vetoes the group and key of a click on `ts`. */
  predicate Unvetoed(env: Env, p: seq<Element>, ts: seq<nat>) {
    forall j :: 0 <= j < |ts| && ts[j] < |p| ==>
      FireEvent(env.handlers, GroupForElement(p[ts[j]], env.names), ItemKey(p[ts[j]], env.names), BeforeChange).proceed
  }

  /** Every element of `ts` carries the active class. */
  predicate AllMarked(p: seq<Element>, n: Names, ts: seq<nat>) {
    forall j :: 0 <= j < |ts| && ts[j] < |p| ==> HasActiveClass(p[ts[j]].className, n.activeClass)
  }

  /** A click on an element of a group leaves alone an element of another
      group. */
  lemma OtherGroupSpared(env: Env, w: World<Element>, t: nat, i: nat)
    requires t < |w.page| && i < |w.page| && Truthy(GroupForElement(w.page[t], env.names))
    requires GroupForElement(w.page[i], env.names) != GroupForElement(w.page[t], env.names)
    ensures Click(env, w, t).page[i] == w.page[i]
  {
    SelectedByGroupAndKey(w.page[i], env.names, Both, GroupForElement(w.page[t], env.names), None);
    ClickSpares(env, w, t, i);
  }

  /** One more click keeps the marks of elements outside the clicked group
      and, when allowed, marks the clicked element too. */
  lemma ClickExtendsMarks(env: Env, w: World<Element>, ks: seq<nat>, t: nat)
    requires t < |w.page| && forall j :: 0 <= j < |ks| ==> ks[j] < |w.page|
    requires ValidToken(env.names.activeClass)
    requires Truthy(GroupForElement(w.page[t], env.names)) && Truthy(ItemKey(w.page[t], env.names))
    requires FireEvent(env.handlers, GroupForElement(w.page[t], env.names), ItemKey(w.page[t], env.names), BeforeChange).proceed
    requires AllMarked(w.page, env.names, ks)
    requires forall j :: 0 <= j < |ks| ==> GroupForElement(w.page[ks[j]], env.names) != GroupForElement(w.page[t], env.names)
    ensures AllMarked(Click(env, w, t).page, env.names, ks + [t])
  {
    var n := env.names;
    ClickMarksOwn(env, w, t);
    var r := Click(env, w, t);
    var ks' := ks + [t];
    forall j | 0 <= j < |ks'| && ks'[j] < |r.page|
      ensures HasActiveClass(r.page[ks'[j]].className, n.activeClass)
    {
      if j < |ks| {
        assert ks'[j] == ks[j];
        OtherGroupSpared(env, w, t, ks[j]);
      }
    }
  }

  /** The clicks on `ts` hit elements of pairwise distinct groups, each
      with a group and a key, and no before-change handler vetoes them. */
  predicate Activatable(env: Env, p: seq<Element>, ts: seq<nat>) {
    (forall j :: 0 <= j < |ts| && ts[j] < |p| ==>
       Truthy(GroupForElement(p[ts[j]], env.names)) && Truthy(ItemKey(p[ts[j]], env.names))) &&
    Unvetoed(env, p, ts) &&
    (forall a, b :: 0 <= a < b < |ts| && ts[a] < |p| && ts[b] < |p| ==>
       GroupForElement(p[ts[a]], env.names) != GroupForElement(p[ts[b]], env.names))
  }

  /** Activatable clicks stay activatable without the last one, on a page
      of the same attributes, and the last one is then an allowed click on
      an element outside the groups of the others. */
  lemma ActivatableSplit(env: Env, p: seq<Element>, q: seq<Element>, init: seq<nat>, t: nat)
    requires t < |p| && forall j :: 0 <= j < |init| ==> init[j] < |p|
    requires |q| == |p| && forall i :: 0 <= i < |p| ==> q[i].attrs == p[i].attrs
    requires Activatable(env, p, init + [t])
    ensures Activatable(env, p, init)
    ensures Truthy(GroupForElement(q[t], env.names)) && Truthy(ItemKey(q[t], env.names))
    ensures FireEvent(env.handlers, GroupForElement(q[t], env.names), ItemKey(q[t], env.names), BeforeChange).proceed
    ensures forall j :: 0 <= j < |init| ==>
              GroupForElement(q[init[j]], env.names) != GroupForElement(q[t], env.names)
  {
    var ts := init + [t];
    assert forall j :: 0 <= j < |init| ==> ts[j] == init[j];
    assert ts[|init|] == t;
    SameAttrs(q[t], p[t], env.names);
    forall j | 0 <= j < |init|
      ensures GroupForElement(q[init[j]], env.names) != GroupForElement(q[t], env.names)
    {
      SameAttrs(q[init[j]], p[init[j]], env.names);
    }
  }

  /** Clicks on elements of distinct groups, each with a group and a key and
      none vetoed, leave every clicked element carrying the active class:
      an element belongs to one group only, so no later click reaches it. */
  lemma {:induction false} ClickAllActivates(env: Env, w: World<Element>, ts: seq<nat>)
    requires forall j :: 0 <= j < |ts| ==> ts[j] < |w.page|
    requires ValidToken(env.names.activeClass)
    requires Activatable(env, w.page, ts)
    ensures AllMarked(ClickAll(env, w, ts).page, env.names, ts)
  {
    if ts != [] {
      var init := ts[..|ts| - 1];
      var t := ts[|ts| - 1];
      var mid := ClickAll(env, w, init);
      assert init + [t] == ts;
      ActivatableSplit(env, w.page, mid.page, init, t);
      ClickAllActivates(env, w, init);
      ClickExtendsMarks(env, mid, init, t);
    }
  }

  /** After the default activation, when no before-change handler vetoes a
      clicked element's group and key, every element `activateGroups`
      clicked carries the active class. Which elements those are is stated
      by ClickedGroups. */
  lemma DefaultsMarkClicked(env: Env, w: World<Element>, ignored: seq<string>)
    requires ValidToken(env.names.activeClass)
    requires Unvetoed(env, w.page, Clicked(Records(w.page, env.names), Query(w.page, env.names, Content, None, None), ignored))
    ensures AllMarked(ActivateDefaults(env, w, ignored).page, env.names,
                      Clicked(Records(w.page, env.names), Query(w.page, env.names, Content, None, None), ignored))
  {
    var n := env.names;
    var recs := Records(w.page, n);
    var elems := Query(w.page, n, Content, None, None);
    var ts := Clicked(recs, elems, ignored);
    ClickedFrom(recs, elems, ignored);
    ClickedDistinct(recs, elems, ignored);
    forall j | 0 <= j < |ts|
      ensures Truthy(GroupForElement(w.page[ts[j]], n)) && Truthy(ItemKey(w.page[ts[j]], n))
    {
      var i :| 0 <= i < |elems| && elems[i] == ts[j];
      SelectedByGroupAndKey(w.page[ts[j]], n, Content, None, None);
    }
    forall a, b | 0 <= a < b < |ts|
      ensures GroupForElement(w.page[ts[a]], n) != GroupForElement(w.page[ts[b]], n)
    {
      assert recs[ts[a]].group != recs[ts[b]].group;
    }
    ClickAllActivates(env, w, ts);
  }

  /** The `keyContentSwitcher` object over a fixed page. */
  class Switcher {
    var linkOfGroup: string
    var contentOfGroup: string
    var keyInGroup: string
    var activeClass: string
    var prefix: string
    var ignoredToActivateGroups: seq<string>
    /** `_set`, and that `applySettings` has been deleted. */
    var settingsApplied: bool
    /** `init` has run and been deleted. */
    var initialized: bool
    var totalEventsHandlers: map<string, Handler>
    var groupEventsHandlers: map<string, GroupSlot>
    /** Every user handler invoked so far, in order. */
    var calls: seq<Call>
    /** `document.getElementsByTagName("*")`, in document order. */
    const page: array<Element>

    function NamesOf(): Names
      reads this`linkOfGroup, this`contentOfGroup, this`keyInGroup, this`activeClass
    {
      Names(linkOfGroup, contentOfGroup, keyInGroup, activeClass)
    }

    function HandlersOf(): Handlers
      reads this`totalEventsHandlers, this`groupEventsHandlers
    {
      Handlers(totalEventsHandlers, groupEventsHandlers)
    }

    function EnvOf(): Env
      reads this`linkOfGroup, this`contentOfGroup, this`keyInGroup, this`activeClass,
            this`totalEventsHandlers, this`groupEventsHandlers
    {
      Env(NamesOf(), HandlersOf())
    }

    function WorldOf(): World<Element>
      reads this`calls, page
    {
      World(page[..], calls)
    }

    /** The object as the script creates it. */
    constructor (page: array<Element>)
      ensures this.page == page
      ensures NamesOf() == DefaultNames && prefix == DefaultPrefix && ignoredToActivateGroups == []
      ensures !settingsApplied && !initialized
      ensures HandlersOf() == Handlers(map[], map[]) && calls == []
    {
      linkOfGroup := DefaultNames.linkOfGroup;
      contentOfGroup := DefaultNames.contentOfGroup;
      keyInGroup := DefaultNames.keyInGroup;
      activeClass := DefaultNames.activeClass;
      prefix := DefaultPrefix;
      ignoredToActivateGroups := [];
      settingsApplied := false;
      initialized := false;
      totalEventsHandlers := map[];
      groupEventsHandlers := map[];
      calls := [];
      this.page := page;
    }

    /** `applySettings(options)`: the options overwrite the settings, then the
        prefix is put in front of the three attribute names. It deletes
        itself, so a second call fails and changes nothing. */
    method ApplySettings(o: Options) returns (ok: bool)
      modifies this`linkOfGroup, this`contentOfGroup, this`keyInGroup, this`activeClass, this`prefix,
               this`ignoredToActivateGroups, this`settingsApplied
      ensures ok == !old(settingsApplied) && settingsApplied
      ensures ok ==> NamesOf() == Prefixed(Merged(old(NamesOf()), o), o.prefix.GetOr(old(prefix))) &&
                     ignoredToActivateGroups == o.ignoredToActivateGroups.GetOr(old(ignoredToActivateGroups))
      ensures !ok ==> NamesOf() == old(NamesOf()) && ignoredToActivateGroups == old(ignoredToActivateGroups)
    {
      if settingsApplied {
        return false;
      }
      prefix := o.prefix.GetOr(prefix);
      linkOfGroup := o.linkOfGroup.GetOr(linkOfGroup);
      contentOfGroup := o.contentOfGroup.GetOr(contentOfGroup);
      keyInGroup := o.keyInGroup.GetOr(keyInGroup);
      activeClass := o.activeClass.GetOr(activeClass);
      ignoredToActivateGroups := o.ignoredToActivateGroups.GetOr(ignoredToActivateGroups);
      contentOfGroup := prefix + contentOfGroup;
      linkOfGroup := prefix + linkOfGroup;
      keyInGroup := prefix + keyInGroup;
      settingsApplied := true;
      ok := true;
    }

    /** `addHandler(event, group, handler)`. */
    method AddHandler(event: string, group: Option<string>, handler: Handler)
      modifies this`totalEventsHandlers, this`groupEventsHandlers
      ensures HandlersOf() == Register(old(HandlersOf()), event, group, handler)
    {
      if group.None? {
        totalEventsHandlers := totalEventsHandlers[event := handler];
        return;
      }
      if !(group.value in groupEventsHandlers && groupEventsHandlers[group.value].Table?) {
        groupEventsHandlers := groupEventsHandlers[group.value := Table(map[])];
      }
      groupEventsHandlers := groupEventsHandlers[group.value := Table(groupEventsHandlers[group.value].handlers[event := handler])];
    }

    /** `tabChanged(group, handler)`. */
    method TabChanged(group: Option<string>, handler: Handler)
      modifies this`totalEventsHandlers, this`groupEventsHandlers
      ensures HandlersOf() == Register(old(HandlersOf()), AfterChange, group, handler)
    {
      AddHandler(AfterChange, group, handler);
    }

    /** `beforeTabChanged(group, handler)`. */
    method BeforeTabChanged(group: Option<string>, handler: Handler)
      modifies this`totalEventsHandlers, this`groupEventsHandlers
      ensures HandlersOf() == Register(old(HandlersOf()), BeforeChange, group, handler)
    {
      AddHandler(BeforeChange, group, handler);
    }

    /** `getElements(kind, group, key)`: the selected elements in document
        order. */
    method GetElements(kind: ItemKind, group: Option<string>, key: Option<string>) returns (r: seq<nat>)
      ensures r == Query(page[..], NamesOf(), kind, group, key)
    {
      r := [];
      for i := 0 to page.Length
        invariant r == Query(page[..i], NamesOf(), kind, group, key)
      {
        var element := page[i];
        var nameOfGroup := GroupOfKind(element, NamesOf(), kind);
        var k := GetAttribute(element, keyInGroup);
        if Truthy(nameOfGroup) && Admits(group, nameOfGroup) && Truthy(k) && Admits(key, k) {
          r := r + [i];
        }
        assert page[..i + 1][..i] == page[..i];
      }
      assert page[..page.Length] == page[..];
    }
  
    /** `getActiveKey(group)`: the key of the first content element of the
        group, and None when it has none. Class names play no part. */
    method GetActiveKey(group: Option<string>) returns (r: Option<string>)
      ensures r.Some? <==> exists i :: 0 <= i < page.Length && Selected(page[i], NamesOf(), Content, group, None)
      ensures r.Some? ==>
                exists i :: 0 <= i < page.Length && Selected(page[i], NamesOf(), Content, group, None) &&
                            (forall j :: 0 <= j < i ==> !Selected(page[j], NamesOf(), Content, group, None)) &&
                            r == ItemKey(page[i], NamesOf())
    {
      var activeContentGroup := GetElements(Content, group, None);
      if |activeContentGroup| > 0 {
        var first := activeContentGroup[0];
        r := ItemKey(page[first], NamesOf());
      } else {
        r := None;
      }
    }

    /** `getContents(group, key)`: by the precedence slip it returns link
        elements too. */
    method GetContents(group: Option<string>, key: Option<string>) returns (r: seq<nat>)
      ensures r == Query(page[..], NamesOf(), Both, group, key)
    {
      r := GetElements(Content, group, key);
      KindQuirk(page[..], NamesOf(), group, key);
    }

    /** `getLinks(group, key)`: by the precedence slip it never finds any. */
    method GetLinks(group: Option<string>, key: Option<string>) returns (r: seq<nat>)
      ensures r == []
    {
      r := GetElements(Link, group, key);
      KindQuirk(page[..], NamesOf(), group, key);
    }

    /** `removeActiveClass(elem)`. */
    method RemoveActiveClass(i: nat)
      requires i < page.Length
      modifies page
      ensures page[..] == old(page[..])[i := old(page[i]).(className := RemovedClass(old(page[i].className), activeClass))]
    {
      var elem := page[i];
      var token := " " + activeClass + " ";
      if elem.className != "" {
        var cur := Normalize(" " + elem.className + " ");
        ghost var cur0 := cur;
        while IndexOf(cur, token) >= 0
          invariant StripAll(cur, token) == StripAll(cur0, token)
          decreases |cur|
        {
          cur := ReplaceFirst(cur, token, " ");
        }
        var finalValue := Trim(cur);
        if elem.className != finalValue {
          page[i] := elem.(className := finalValue);
        }
      }
    }

    /** `addActiveClass(elem)`. */
    method AddActiveClass(i: nat)
      requires i < page.Length
      modifies page
      ensures page[..] == old(page[..])[i := old(page[i]).(className := AddedClass(old(page[i].className), activeClass))]
    {
      var elem := page[i];
      var cur := if elem.className != "" then Normalize(" " + elem.className + " ") else " ";
      if IndexOf(cur, " " + activeClass + " ") < 0 {
        cur := cur + activeClass + " ";
      }
      var finalValue := Trim(cur);
      if elem.className != finalValue {
        page[i] := elem.(className := finalValue);
      }
    }
  
    /** `unActivateAll(group)`. */
    method UnActivateAll(group: Option<string>)
      modifies page
      ensures page[..] == Unmarked(old(page[..]), NamesOf(), group)
    {
      ghost var p0 := page[..];
      ghost var target := Unmarked(p0, NamesOf(), group);
      ghost var done: set<nat> := {};
      var elements := GetElements(Both, group, None);
      for j := 0 to |elements|
        invariant Visited(elements, done, j)
        invariant page[..] == Overlay(p0, target, done)
      {
        var t := elements[j];
        DoneStep(elements, done, j);
        UnmarkedAt(p0, NamesOf(), group, t);
        OverlayAdd(p0, target, done, t);
        RemoveActiveClass(t);
        done := done + {t};
      }
      QueryDone(elements, done);
      UnmarkedOutside(p0, NamesOf(), group, done);
      OverlayComplete(p0, target, done);
    }

    /** The marking loop of `setActiveKey`. */
    method MarkAll(group: Option<string>, key: Option<string>)
      modifies page
      ensures page[..] == Marked(old(page[..]), NamesOf(), group, key)
    {
      ghost var p0 := page[..];
      ghost var target := Marked(p0, NamesOf(), group, key);
      ghost var done: set<nat> := {};
      var activeElements := GetElements(Both, group, key);
      for j := 0 to |activeElements|
        invariant Visited(activeElements, done, j)
        invariant page[..] == Overlay(p0, target, done)
      {
        var t := activeElements[j];
        DoneStep(activeElements, done, j);
        MarkedAt(p0, NamesOf(), group, key, t);
        OverlayAdd(p0, target, done, t);
        AddActiveClass(t);
        done := done + {t};
      }
      QueryDone(activeElements, done);
      MarkedOutside(p0, NamesOf(), group, key, done);
      OverlayComplete(p0, target, done);
    }

    /** `fireEvent(group, key, event)`: the invoked handlers are logged. */
    method FireEventLogged(group: Option<string>, key: Option<string>, event: string) returns (proceed: bool)
      modifies this`calls
      ensures var d := FireEvent(HandlersOf(), group, key, event);
              proceed == d.proceed && calls == old(calls) + d.calls
    {
      var d := FireEvent(HandlersOf(), group, key, event);
      calls := calls + d.calls;
      proceed := d.proceed;
    }

    /** `setActiveKey(group, key)`; it always answers false. */
    method SetActiveKey(group: Option<string>, key: Option<string>) returns (r: bool)
      modifies page, this`calls
      ensures !r
      ensures WorldOf() == Activate(EnvOf(), old(WorldOf()), group, key)
    {
      ghost var w0 := WorldOf();
      ghost var n := NamesOf();
      var canChange := FireEventLogged(group, key, BeforeChange);
      if canChange {
        UnActivateAll(group);
        MarkAll(group, key);
        assert page[..] == Marked(Unmarked(w0.page, n, group), n, group, key);
        var _ := FireEventLogged(group, key, AfterChange);
      }
      r := false;
    }

    /** `fireLinkClick(element)`. */
    method FireLinkClick(i: nat) returns (r: bool)
      requires i < page.Length
      modifies page, this`calls
      ensures !r
      ensures EnvOf() == old(EnvOf())
      ensures WorldOf() == Click(EnvOf(), old(WorldOf()), i)
    {
      var groupName := GroupForElement(page[i], NamesOf());
      var contentKey := ItemKey(page[i], NamesOf());
      r := SetActiveKey(groupName, contentKey);
    }
  
    /** The collecting loop of `activateGroups`. */
    method CollectGroups(elements: seq<nat>) returns (groups: seq<Group>)
      requires forall j :: 0 <= j < |elements| ==> elements[j] < page.Length
      ensures groups == GroupsOf(Pick(Records(page[..], NamesOf()), elements))
    {
      ghost var ms := Pick(Records(page[..], NamesOf()), elements);
      groups := [];
      for j := 0 to |elements|
        invariant groups == GroupsOf(ms[..j])
      {
        var element := page[elements[j]];
        var key := PropKey(GroupForElement(element, NamesOf()));
        var flag := if HasActiveClass(element.className, activeClass) then FTrue else FUndefined;
        assert ms[j] == Member(key, elements[j], flag);
        InsertInPlace(groups, ms[j]);
        GroupsOfStep(ms, j);
        var at := Find(groups, key);
        if at < 0 {
          groups := groups + [Group(key, Num(0), [])];
          at := |groups| - 1;
        }
        var g := groups[at];
        groups := groups[at := Group(key, AddFlag(g.tally, flag), g.members + [elements[j]])];
      }
      assert ms[..|elements|] == ms;
    }

    /** The selecting loop of `activateGroups`, the `for ... in` over the
        groups: click the first element of every group that is not ignored,
        is not empty and has no truthy `hasActive`. */
    method ClickGroups(groups: seq<Group>, ignoredGroupKeys: seq<string>)
      requires Bounded(groups, page.Length)
      modifies page, this`calls
      ensures WorldOf() == ClickAll(EnvOf(), old(WorldOf()), BoundedTargets(groups, ignoredGroupKeys, page.Length))
    {
      ghost var w0 := WorldOf();
      ghost var env := EnvOf();
      for j := 0 to |groups|
        invariant AllBelow(Targets(groups[..j], ignoredGroupKeys), |w0.page|)
        invariant WorldOf() == ClickAll(env, w0, Targets(groups[..j], ignoredGroupKeys))
      {
        var group := groups[j];
        ghost var done := Targets(groups[..j], ignoredGroupKeys);
        ghost var next := Targets(groups[..j + 1], ignoredGroupKeys);
        BoundedStep(groups, ignoredGroupKeys, page.Length, j);
        if !(group.name in ignoredGroupKeys || |group.members| <= 0 || TallyTruthy(group.tally)) {
          assert next == done + [group.members[0]];
          ClickAllStep(env, w0, done, group.members[0]);
          var _ := FireLinkClick(group.members[0]);
        } else {
          assert next == done;
        }
      }
      assert groups[..|groups|] == groups;
    }

    /** `activateGroups(elements, ignoredGroupKeys)`: collect the elements by
        group, then click the first element of every group that is not
        ignored and has no truthy `hasActive`. */
    method ActivateGroups(elements: seq<nat>, ignoredGroupKeys: seq<string>)
      requires forall j :: 0 <= j < |elements| ==> elements[j] < page.Length
      modifies page, this`calls
      ensures WorldOf() == ClickAll(EnvOf(), old(WorldOf()), Clicked(Records(old(page[..]), NamesOf()), elements, ignoredGroupKeys))
    {
      var groups := CollectGroups(elements);
      GroupsBounded(Pick(Records(page[..], NamesOf()), elements), page.Length);
      ClickGroups(groups, ignoredGroupKeys);
    }

    /** `activateGroup(group)`. */
    method ActivateGroup(group: Option<string>)
      modifies page, this`calls
      ensures WorldOf() == ClickAll(EnvOf(), old(WorldOf()),
                                    Clicked(Records(old(page[..]), NamesOf()), Query(old(page[..]), NamesOf(), Content, group, None), []))
    {
      var elements := GetElements(Content, group, None);
      ActivateGroups(elements, []);
    }
  
    /** `init()`: apply the default settings unless `applySettings` already
        ran, then activate every group on the page that is not ignored. The
        click listener it installs is `FireLinkClick`. It deletes itself, so
        a second call fails and changes nothing. */
    method Init() returns (ok: bool)
      modifies this, page
      ensures ok == !old(initialized)
      ensures !ok ==> unchanged(this) && unchanged(page)
      ensures ok ==> initialized && settingsApplied && HandlersOf() == old(HandlersOf())
      ensures ok ==> NamesOf() == if old(settingsApplied) then old(NamesOf()) else Prefixed(old(NamesOf()), old(prefix))
      ensures ok ==> WorldOf() == ActivateDefaults(EnvOf(), old(WorldOf()), old(ignoredToActivateGroups))
    {
      if initialized {
        return false;
      }
      ghost var w0 := WorldOf();
      ghost var ignored := ignoredToActivateGroups;
      if !settingsApplied {
        var _ := ApplySettings(NoOptions);
      }
      assert WorldOf() == w0 && ignoredToActivateGroups == ignored;
      ActivateAll();
      ghost var w1 := WorldOf();
      ghost var env := EnvOf();
      initialized := true;
      assert WorldOf() == w1 && EnvOf() == env;
      ok := true;
    }

    /** The last step of `init`: activate every group on the page that is
        not ignored. */
    method ActivateAll()
      modifies page, this`calls
      ensures WorldOf() == ActivateDefaults(EnvOf(), old(WorldOf()), ignoredToActivateGroups)
    {
      var elements := GetElements(Content, None, None);
      ActivateGroups(elements, ignoredToActivateGroups);
    }
  }
}
