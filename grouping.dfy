/** The bookkeeping of `activateGroups`, the same in all three versions:
    elements are collected into per-group records `{hasActive, htmlElements}`
    in order of first appearance, `hasActive` accumulating with JavaScript's
    `+`, and the first element of every group that is not ignored, not empty
    and not marked active is then clicked. */
module Grouping {

  /** What a class test returned, as JavaScript adds it: `true`, `false`, or
      `undefined` (a test that fell off its end). */
  datatype Flag = FTrue | FFalse | FUndefined

  /** The value of `hasActive`. It starts as `false`, which `+` treats as 0,
      so the start is Num(0); `undefined` turns the sum into NaN for good. */
  datatype Tally = Num(n: nat) | NaN

  /** `hasActive += flag`. */
  function AddFlag(t: Tally, f: Flag): Tally {
    match t
    case NaN => NaN
    case Num(n) =>
      match f
      case FTrue => Num(n + 1)
      case FFalse => Num(n)
      case FUndefined => NaN
  }

  /** A number is truthy unless it is 0 or NaN. */
  predicate TallyTruthy(t: Tally) {
    t.Num? && t.n != 0
  }

  /** `hasActive` after adding the flags of `fs` in order. */
  function TallyOf(fs: seq<Flag>): Tally {
    if fs == [] then Num(0) else AddFlag(TallyOf(fs[..|fs| - 1]), fs[|fs| - 1])
  }

  /** With tests that answer `true` or `undefined` (never `false`), the tally
      is truthy exactly when every test answered `true`: one `undefined` makes
      it NaN. */
  lemma {:induction false} TallyAllOrNothing(fs: seq<Flag>)
    requires forall i :: 0 <= i < |fs| ==> fs[i] != FFalse
    ensures TallyOf(fs) == if forall i :: 0 <= i < |fs| ==> fs[i] == FTrue then Num(|fs|) else NaN
    ensures TallyTruthy(TallyOf(fs)) <==> |fs| > 0 && forall i :: 0 <= i < |fs| ==> fs[i] == FTrue
  {
    if fs != [] {
      var init := fs[..|fs| - 1];
      TallyAllOrNothing(init);
      assert forall i :: 0 <= i < |init| ==> init[i] == fs[i];
    }
  }

  /** With tests that answer `true` or `false`, the tally counts the `true`
      answers, so it is truthy exactly when one of them is `true`. */
  lemma {:induction false} TallyCountsTrue(fs: seq<Flag>)
    requires forall i :: 0 <= i < |fs| ==> fs[i] != FUndefined
    ensures TallyOf(fs).Num?
    ensures TallyTruthy(TallyOf(fs)) <==> exists i :: 0 <= i < |fs| && fs[i] == FTrue
  {
    if fs != [] {
      var init := fs[..|fs| - 1];
      TallyCountsTrue(init);
      assert forall i :: 0 <= i < |init| ==> init[i] == fs[i];
      if TallyTruthy(TallyOf(init)) {
        var i :| 0 <= i < |init| && init[i] == FTrue;
        assert fs[i] == FTrue;
      }
    }
  }

  /** One element as `activateGroups` sees it: the property key of its group,
      its position in the page, and its class test. */
  datatype Member = Member(group: string, index: nat, flag: Flag)

  /** `groups[name] = {hasActive: tally, htmlElements: members}`. */
  datatype Group = Group(name: string, tally: Tally, members: seq<nat>)

  /** Where `groups[name]` is, or -1 when `groups[name] == null`. */
  function Find(gs: seq<Group>, name: string): (r: int)
    ensures -1 <= r < |gs|
    ensures r >= 0 ==> gs[r].name == name
    ensures r < 0 ==> forall j :: 0 <= j < |gs| ==> gs[j].name != name
  {
    if gs == [] then -1
    else if gs[|gs| - 1].name == name then |gs| - 1
    else Find(gs[..|gs| - 1], name)
  }

  /** One round of the collecting loop: create the group when it is missing,
      add the flag to its tally and push the element. */
  function Insert(gs: seq<Group>, m: Member): seq<Group> {
    var j := Find(gs, m.group);
    if j < 0 then gs + [Group(m.group, AddFlag(Num(0), m.flag), [m.index])]
    else gs[j := Group(m.group, AddFlag(gs[j].tally, m.flag), gs[j].members + [m.index])]
  }

  /** The groups after the collecting loop has seen `ms`. */
  function GroupsOf(ms: seq<Member>): seq<Group> {
    if ms == [] then [] else Insert(GroupsOf(ms[..|ms| - 1]), ms[|ms| - 1])
  }

  /** The collecting loop one member further on. */
  lemma GroupsOfStep(ms: seq<Member>, j: nat)
    requires j < |ms|
    ensures GroupsOf(ms[..j + 1]) == Insert(GroupsOf(ms[..j]), ms[j])
  {
    assert ms[..j + 1][..j] == ms[..j];
  }

  /** `Insert` as the loop writes it: create the group when it is missing,
      then update it in place. */
  lemma InsertInPlace(gs: seq<Group>, m: Member)
    ensures var j := Find(gs, m.group);
            var gs' := if j < 0 then gs + [Group(m.group, Num(0), [])] else gs;
            var at := if j < 0 then |gs| else j;
            Insert(gs, m) == gs'[at := Group(m.group, AddFlag(gs'[at].tally, m.flag), gs'[at].members + [m.index])]
  {
    if Find(gs, m.group) < 0 {
      assert [] + [m.index] == [m.index];
    }
  }

  /** The distinct group names of `ms`, in order of first appearance. */
  function NamesOf(ms: seq<Member>): seq<string> {
    if ms == [] then []
    else
      var ns := NamesOf(ms[..|ms| - 1]);
      if ms[|ms| - 1].group in ns then ns else ns + [ms[|ms| - 1].group]
  }

  /** The positions of the members of group `name`, in order. */
  function MembersNamed(ms: seq<Member>, name: string): seq<nat> {
    if ms == [] then []
    else MembersNamed(ms[..|ms| - 1], name) + if ms[|ms| - 1].group == name then [ms[|ms| - 1].index] else []
  }

  /** The class tests of the members of group `name`, in order. */
  function FlagsNamed(ms: seq<Member>, name: string): seq<Flag> {
    if ms == [] then []
    else FlagsNamed(ms[..|ms| - 1], name) + if ms[|ms| - 1].group == name then [ms[|ms| - 1].flag] else []
  }

  /** The names are distinct, and they are exactly the groups that occur. */
  lemma {:induction false} NamesOfSpec(ms: seq<Member>)
    ensures forall a, b :: 0 <= a < b < |NamesOf(ms)| ==> NamesOf(ms)[a] != NamesOf(ms)[b]
    ensures forall name :: name in NamesOf(ms) <==> exists i :: 0 <= i < |ms| && ms[i].group == name
    ensures forall name :: name !in NamesOf(ms) ==> MembersNamed(ms, name) == [] && FlagsNamed(ms, name) == []
  {
    if ms != [] {
      var init := ms[..|ms| - 1];
      NamesOfSpec(init);
      forall name | name in NamesOf(ms)
        ensures exists i :: 0 <= i < |ms| && ms[i].group == name
      {
        if name in NamesOf(init) {
          var i :| 0 <= i < |init| && init[i].group == name;
          assert ms[i].group == name;
        } else {
          assert ms[|ms| - 1].group == name;
        }
      }
      forall name | exists i :: 0 <= i < |ms| && ms[i].group == name
        ensures name in NamesOf(ms)
      {
        var i :| 0 <= i < |ms| && ms[i].group == name;
        if i < |ms| - 1 {
          assert init[i].group == name;
        }
      }
    }
  }

  /** The collecting loop builds one group per name, in order of first
      appearance, holding exactly the members of that name in order and the
      tally of exactly their flags. */
  lemma {:induction false} GroupsOfIsPartition(ms: seq<Member>)
    ensures |GroupsOf(ms)| == |NamesOf(ms)|
    ensures forall j :: 0 <= j < |GroupsOf(ms)| ==>
              GroupsOf(ms)[j] == Group(NamesOf(ms)[j], TallyOf(FlagsNamed(ms, NamesOf(ms)[j])), MembersNamed(ms, NamesOf(ms)[j]))
  {
    if ms != [] {
      var init := ms[..|ms| - 1];
      GroupsOfIsPartition(init);
      if Find(GroupsOf(init), ms[|ms| - 1].group) < 0 {
        PartitionNewGroup(ms, init);
      } else {
        PartitionOldGroup(ms, init);
      }
    }
  }

  /** The last member, of a new name, opens a new group at the end. */
  lemma PartitionNewGroup(ms: seq<Member>, init: seq<Member>)
    requires ms != [] && init == ms[..|ms| - 1]
    requires |GroupsOf(init)| == |NamesOf(init)|
    requires forall j :: 0 <= j < |GroupsOf(init)| ==>
               GroupsOf(init)[j] == Group(NamesOf(init)[j], TallyOf(FlagsNamed(init, NamesOf(init)[j])), MembersNamed(init, NamesOf(init)[j]))
    requires Find(GroupsOf(init), ms[|ms| - 1].group) < 0
    ensures |GroupsOf(ms)| == |NamesOf(ms)|
    ensures forall j :: 0 <= j < |GroupsOf(ms)| ==>
              GroupsOf(ms)[j] == Group(NamesOf(ms)[j], TallyOf(FlagsNamed(ms, NamesOf(ms)[j])), MembersNamed(ms, NamesOf(ms)[j]))
  {
    var m := ms[|ms| - 1];
    NamesOfSpec(init);
    var gs := GroupsOf(init);
    var ns := NamesOf(init);
    assert m.group !in ns;
    assert GroupsOf(ms) == gs + [Group(m.group, AddFlag(Num(0), m.flag), [m.index])];
    assert NamesOf(ms) == ns + [m.group];
    assert MembersNamed(ms, m.group) == [m.index];
    assert FlagsNamed(ms, m.group) == [m.flag];
    assert [m.flag][..0] == [];
    forall j | 0 <= j < |gs|
      ensures GroupsOf(ms)[j] == Group(NamesOf(ms)[j], TallyOf(FlagsNamed(ms, NamesOf(ms)[j])), MembersNamed(ms, NamesOf(ms)[j]))
    {
      assert ns[j] != m.group;
      assert MembersNamed(ms, ns[j]) == MembersNamed(init, ns[j]);
      assert FlagsNamed(ms, ns[j]) == FlagsNamed(init, ns[j]);
    }
  }

  /** The last member, of a known name, joins that group and changes no
      other. */
  lemma PartitionOldGroup(ms: seq<Member>, init: seq<Member>)
    requires ms != [] && init == ms[..|ms| - 1]
    requires |GroupsOf(init)| == |NamesOf(init)|
    requires forall j :: 0 <= j < |GroupsOf(init)| ==>
               GroupsOf(init)[j] == Group(NamesOf(init)[j], TallyOf(FlagsNamed(init, NamesOf(init)[j])), MembersNamed(init, NamesOf(init)[j]))
    requires Find(GroupsOf(init), ms[|ms| - 1].group) >= 0
    ensures |GroupsOf(ms)| == |NamesOf(ms)|
    ensures forall j :: 0 <= j < |GroupsOf(ms)| ==>
              GroupsOf(ms)[j] == Group(NamesOf(ms)[j], TallyOf(FlagsNamed(ms, NamesOf(ms)[j])), MembersNamed(ms, NamesOf(ms)[j]))
  {
    var m := ms[|ms| - 1];
    NamesOfSpec(init);
    var gs := GroupsOf(init);
    var ns := NamesOf(init);
    var k := Find(gs, m.group);
    assert ns[k] == m.group;
    assert m.group in ns;
    assert NamesOf(ms) == ns;
    var fs := FlagsNamed(init, m.group);
    assert FlagsNamed(ms, m.group) == fs + [m.flag];
    assert (fs + [m.flag])[..|fs|] == fs;
    assert TallyOf(fs + [m.flag]) == AddFlag(TallyOf(fs), m.flag);
    forall j | 0 <= j < |gs|
      ensures GroupsOf(ms)[j] == Group(NamesOf(ms)[j], TallyOf(FlagsNamed(ms, NamesOf(ms)[j])), MembersNamed(ms, NamesOf(ms)[j]))
    {
      if j != k {
        assert ns[j] != m.group;
        assert MembersNamed(ms, ns[j]) == MembersNamed(init, ns[j]);
        assert FlagsNamed(ms, ns[j]) == FlagsNamed(init, ns[j]);
      }
    }
  }

  /** The members of a group are members of `ms` of that group. */
  lemma {:induction false} MembersNamedFrom(ms: seq<Member>, name: string)
    ensures forall t :: t in MembersNamed(ms, name) ==> exists i :: 0 <= i < |ms| && ms[i].index == t && ms[i].group == name
  {
    if ms != [] {
      var init := ms[..|ms| - 1];
      MembersNamedFrom(init, name);
      forall t | t in MembersNamed(ms, name)
        ensures exists i :: 0 <= i < |ms| && ms[i].index == t && ms[i].group == name
      {
        if t in MembersNamed(init, name) {
          var i :| 0 <= i < |init| && init[i].index == t && init[i].group == name;
          assert ms[i] == init[i];
        } else {
          assert ms[|ms| - 1].index == t && ms[|ms| - 1].group == name;
        }
      }
    }
  }

  /** The flags of a group are the flags of its members. */
  lemma {:induction false} FlagsNamedSpec(ms: seq<Member>, name: string)
    ensures forall f :: f in FlagsNamed(ms, name) <==> exists i :: 0 <= i < |ms| && ms[i].group == name && ms[i].flag == f
  {
    if ms != [] {
      var init := ms[..|ms| - 1];
      FlagsNamedSpec(init, name);
      forall f | exists i :: 0 <= i < |ms| && ms[i].group == name && ms[i].flag == f
        ensures f in FlagsNamed(ms, name)
      {
        var i :| 0 <= i < |ms| && ms[i].group == name && ms[i].flag == f;
        if i < |ms| - 1 {
          assert init[i] == ms[i];
        }
      }
      forall f | f in FlagsNamed(ms, name)
        ensures exists i :: 0 <= i < |ms| && ms[i].group == name && ms[i].flag == f
      {
        if f in FlagsNamed(init, name) {
          var i :| 0 <= i < |init| && init[i].group == name && init[i].flag == f;
          assert ms[i] == init[i];
        } else {
          assert ms[|ms| - 1].flag == f;
        }
      }
    }
  }

  /** With flags that are `true` or `undefined`, the tally of a group that
      occurs is falsy exactly when one of its members has `undefined`. */
  lemma TallyFalsyIffUndefined(ms: seq<Member>, name: string)
    requires forall i :: 0 <= i < |ms| ==> ms[i].flag != FFalse
    requires exists i :: 0 <= i < |ms| && ms[i].group == name
    ensures !TallyTruthy(TallyOf(FlagsNamed(ms, name))) <==>
              exists i :: 0 <= i < |ms| && ms[i].group == name && ms[i].flag == FUndefined
  {
    var fs := FlagsNamed(ms, name);
    FlagsNamedSpec(ms, name);
    forall k | 0 <= k < |fs|
      ensures fs[k] != FFalse
    {
      assert fs[k] in fs;
    }
    TallyAllOrNothing(fs);
    var j :| 0 <= j < |ms| && ms[j].group == name;
    assert ms[j].flag in fs;
    if exists i :: 0 <= i < |ms| && ms[i].group == name && ms[i].flag == FUndefined {
      assert FUndefined in fs;
    } else {
      forall k | 0 <= k < |fs|
        ensures fs[k] == FTrue
      {
        assert fs[k] in fs;
      }
    }
  }

  /** With flags that are `true` or `false`, the tally of a group is falsy
      exactly when none of its members has `true`. */
  lemma TallyFalsyIffNoTrue(ms: seq<Member>, name: string)
    requires forall i :: 0 <= i < |ms| ==> ms[i].flag != FUndefined
    ensures !TallyTruthy(TallyOf(FlagsNamed(ms, name))) <==>
              forall i :: 0 <= i < |ms| && ms[i].group == name ==> ms[i].flag != FTrue
  {
    var fs := FlagsNamed(ms, name);
    FlagsNamedSpec(ms, name);
    forall k | 0 <= k < |fs|
      ensures fs[k] != FUndefined
    {
      assert fs[k] in fs;
    }
    TallyCountsTrue(fs);
    if exists i :: 0 <= i < |ms| && ms[i].group == name && ms[i].flag == FTrue {
      assert FTrue in fs;
    } else {
      forall k | 0 <= k < |fs|
        ensures fs[k] == FFalse
      {
        assert fs[k] in fs;
      }
    }
  }

  /** `ms[i]` is the first member of its group. */
  predicate FirstOfGroup(ms: seq<Member>, i: nat)
    requires i < |ms|
  {
    forall i' :: 0 <= i' < i ==> ms[i'].group != ms[i].group
  }

  /** The first member of a group heads that group's member list. */
  lemma {:induction false} FirstMemberHeads(ms: seq<Member>, i: nat)
    requires i < |ms| && FirstOfGroup(ms, i)
    ensures MembersNamed(ms, ms[i].group) != [] && MembersNamed(ms, ms[i].group)[0] == ms[i].index
  {
    var init := ms[..|ms| - 1];
    if i == |ms| - 1 {
      NamesOfSpec(init);
      assert ms[i].group !in NamesOf(init);
    } else {
      assert FirstOfGroup(init, i);
      FirstMemberHeads(init, i);
    }
  }

  /** Some member of group `name` comes first. */
  lemma FirstOfName(ms: seq<Member>, name: string) returns (i: nat)
    requires exists i :: 0 <= i < |ms| && ms[i].group == name
    ensures i < |ms| && ms[i].group == name && FirstOfGroup(ms, i)
  {
    var k :| 0 <= k < |ms| && ms[k].group == name;
    i := 0;
    while ms[i].group != name
      invariant i <= k
      invariant forall i' :: 0 <= i' < i ==> ms[i'].group != name
      decreases k - i
    {
      i := i + 1;
    }
  }

  /** The test of the selecting loop: not in the ignored list, not empty and
      `hasActive` falsy. */
  predicate Eligible(g: Group, ignored: seq<string>) {
    !(g.name in ignored || |g.members| <= 0 || TallyTruthy(g.tally))
  }

  /** The elements the selecting loop clicks, in order. */
  function Targets(gs: seq<Group>, ignored: seq<string>): seq<nat> {
    if gs == [] then []
    else
      var g := gs[|gs| - 1];
      Targets(gs[..|gs| - 1], ignored) + if Eligible(g, ignored) then [g.members[0]] else []
  }

  /** What the selecting loop clicks: every element it clicks is the first
      element of an eligible group, and the first element of every eligible
      group is clicked. */
  lemma {:induction false} TargetsOfGroups(gs: seq<Group>, ignored: seq<string>)
    ensures forall t :: t in Targets(gs, ignored) <==>
              exists j :: 0 <= j < |gs| && Eligible(gs[j], ignored) && gs[j].members[0] == t
  {
    if gs != [] {
      var init := gs[..|gs| - 1];
      TargetsOfGroups(init, ignored);
      forall t | exists j :: 0 <= j < |gs| && Eligible(gs[j], ignored) && gs[j].members[0] == t
        ensures t in Targets(gs, ignored)
      {
        var j :| 0 <= j < |gs| && Eligible(gs[j], ignored) && gs[j].members[0] == t;
        if j < |gs| - 1 {
          assert init[j] == gs[j];
        }
      }
      forall t | t in Targets(gs, ignored)
        ensures exists j :: 0 <= j < |gs| && Eligible(gs[j], ignored) && gs[j].members[0] == t
      {
        if t in Targets(init, ignored) {
          var j :| 0 <= j < |init| && Eligible(init[j], ignored) && init[j].members[0] == t;
          assert gs[j] == init[j];
        }
      }
    }
  }

  /** Every clicked element is one of the collected ones. */
  lemma TargetsFromMembers(ms: seq<Member>, ignored: seq<string>)
    ensures forall t :: t in Targets(GroupsOf(ms), ignored) ==> exists i :: 0 <= i < |ms| && ms[i].index == t
  {
    var gs := GroupsOf(ms);
    TargetsOfGroups(gs, ignored);
    GroupsOfIsPartition(ms);
    forall t | t in Targets(gs, ignored)
      ensures exists i :: 0 <= i < |ms| && ms[i].index == t
    {
      var j :| 0 <= j < |gs| && Eligible(gs[j], ignored) && gs[j].members[0] == t;
      var name := NamesOf(ms)[j];
      assert gs[j].members == MembersNamed(ms, name);
      assert t in MembersNamed(ms, name);
      MembersNamedFrom(ms, name);
    }
  }

  /** `activateGroups` in terms of the collected elements alone: it clicks
      element `t` exactly when `t` is the first collected element of some
      group that is not ignored and whose members' tally is falsy. */
  lemma ClickedAreFirstOfEligible(ms: seq<Member>, ignored: seq<string>)
    ensures forall t :: t in Targets(GroupsOf(ms), ignored) <==>
              exists i :: 0 <= i < |ms| && ms[i].index == t && FirstOfGroup(ms, i) &&
                ms[i].group !in ignored && !TallyTruthy(TallyOf(FlagsNamed(ms, ms[i].group)))
  {
    var gs := GroupsOf(ms);
    var ns := NamesOf(ms);
    TargetsOfGroups(gs, ignored);
    GroupsOfIsPartition(ms);
    NamesOfSpec(ms);
    forall t | t in Targets(gs, ignored)
      ensures exists i :: 0 <= i < |ms| && ms[i].index == t && FirstOfGroup(ms, i) &&
                ms[i].group !in ignored && !TallyTruthy(TallyOf(FlagsNamed(ms, ms[i].group)))
    {
      var j :| 0 <= j < |gs| && Eligible(gs[j], ignored) && gs[j].members[0] == t;
      assert ns[j] in ns;
      var i := FirstOfName(ms, ns[j]);
      FirstMemberHeads(ms, i);
    }
    forall t | exists i :: 0 <= i < |ms| && ms[i].index == t && FirstOfGroup(ms, i) &&
                ms[i].group !in ignored && !TallyTruthy(TallyOf(FlagsNamed(ms, ms[i].group)))
      ensures t in Targets(gs, ignored)
    {
      var i :| 0 <= i < |ms| && ms[i].index == t && FirstOfGroup(ms, i) &&
                ms[i].group !in ignored && !TallyTruthy(TallyOf(FlagsNamed(ms, ms[i].group)));
      FirstMemberHeads(ms, i);
      assert ms[i].group in ns;
      var j :| 0 <= j < |ns| && ns[j] == ms[i].group;
      assert Eligible(gs[j], ignored);
    }
  }

  /** Every collected position is below `n`. */
  predicate Bounded(gs: seq<Group>, n: nat) {
    forall j :: 0 <= j < |gs| ==> forall t :: t in gs[j].members ==> t < n
  }

  /** Positions below `n` give groups whose members are below `n`. */
  lemma {:induction false} GroupsBounded(ms: seq<Member>, n: nat)
    requires forall i :: 0 <= i < |ms| ==> ms[i].index < n
    ensures Bounded(GroupsOf(ms), n)
  {
    if ms != [] {
      var init := ms[..|ms| - 1];
      assert forall i :: 0 <= i < |init| ==> init[i].index < n;
      GroupsBounded(init, n);
      InsertBounded(GroupsOf(init), ms[|ms| - 1], n);
    }
  }

  /** One round of the collecting loop keeps the bound. */
  lemma InsertBounded(gs: seq<Group>, m: Member, n: nat)
    requires Bounded(gs, n) && m.index < n
    ensures Bounded(Insert(gs, m), n)
  {
    var j := Find(gs, m.group);
    var r := Insert(gs, m);
    forall k | 0 <= k < |r|
      ensures forall t :: t in r[k].members ==> t < n
    {
      if j < 0 && k == |gs| {
        assert r[k].members == [m.index];
      } else if j >= 0 && k == j {
        assert r[k].members == gs[j].members + [m.index];
      } else {
        assert r[k] == gs[k];
      }
    }
  }

  /** The clicked elements of bounded groups are below the bound. */
  lemma {:induction false} TargetsBounded(gs: seq<Group>, ignored: seq<string>, n: nat)
    requires Bounded(gs, n)
    ensures forall k :: 0 <= k < |Targets(gs, ignored)| ==> Targets(gs, ignored)[k] < n
  {
    if gs != [] {
      var g := gs[|gs| - 1];
      TargetsBounded(gs[..|gs| - 1], ignored, n);
      if Eligible(g, ignored) {
        assert g.members[0] in g.members;
      }
    }
  }

  /** `Targets` of groups whose members are below `n`, with that bound. */
  function BoundedTargets(gs: seq<Group>, ignored: seq<string>, n: nat): (ts: seq<nat>)
    requires Bounded(gs, n)
    ensures ts == Targets(gs, ignored)
    ensures forall k :: 0 <= k < |ts| ==> ts[k] < n
  {
    TargetsBounded(gs, ignored, n);
    Targets(gs, ignored)
  }

  /** The selecting loop one group further on. */
  lemma TargetsStep(gs: seq<Group>, ignored: seq<string>, j: nat)
    requires j < |gs|
    ensures Targets(gs[..j + 1], ignored) ==
            Targets(gs[..j], ignored) + if Eligible(gs[j], ignored) then [gs[j].members[0]] else []
  {
    assert gs[..j + 1][..j] == gs[..j];
  }

  /** Every index of `ts` is below `n`. */
  predicate AllBelow(ts: seq<nat>, n: nat) {
    forall k :: 0 <= k < |ts| ==> ts[k] < n
  }

  /** The selecting loop one group further on, with the bounds it needs:
      the targets so far stay below `n`, as does the one it may add. */
  lemma BoundedStep(gs: seq<Group>, ignored: seq<string>, n: nat, j: nat)
    requires Bounded(gs, n) && j < |gs|
    ensures Targets(gs[..j + 1], ignored) ==
            Targets(gs[..j], ignored) + if Eligible(gs[j], ignored) then [gs[j].members[0]] else []
    ensures AllBelow(Targets(gs[..j + 1], ignored), n)
    ensures Eligible(gs[j], ignored) ==> gs[j].members[0] < n
  {
    TargetsStep(gs, ignored, j);
    BoundedPrefix(gs, n, j + 1);
    TargetsBounded(gs[..j + 1], ignored, n);
    if Eligible(gs[j], ignored) {
      assert gs[j].members[0] in gs[j].members;
    }
  }

  /** A prefix of bounded groups is bounded. */
  lemma BoundedPrefix(gs: seq<Group>, n: nat, j: nat)
    requires Bounded(gs, n) && j <= |gs|
    ensures Bounded(gs[..j], n)
  {
  }

  /** Every position of `elems` is a position of `recs`. */
  predicate Within(recs: seq<Member>, elems: seq<nat>) {
    forall j :: 0 <= j < |elems| ==> elems[j] < |recs|
  }

  /** `recs[i]` is the record of page position `i`. */
  predicate Indexed(recs: seq<Member>) {
    forall i :: 0 <= i < |recs| ==> recs[i].index == i
  }

  /** The records the collecting loop reads for the elements `elems`, in
      their order, taken from `recs`, the records of the whole page. */
  function Pick(recs: seq<Member>, elems: seq<nat>): (r: seq<Member>)
    requires Within(recs, elems)
    ensures |r| == |elems|
    ensures forall j :: 0 <= j < |elems| ==> r[j] == recs[elems[j]]
  {
    if elems == [] then []
    else Pick(recs, elems[..|elems| - 1]) + [recs[elems[|elems| - 1]]]
  }

  /** The page positions `activateGroups(elems, ignored)` clicks, in order. */
  function Clicked(recs: seq<Member>, elems: seq<nat>, ignored: seq<string>): (ts: seq<nat>)
    requires Indexed(recs) && Within(recs, elems)
    ensures forall k :: 0 <= k < |ts| ==> ts[k] < |recs|
  {
    var ms := Pick(recs, elems);
    GroupsBounded(ms, |recs|);
    TargetsBounded(GroupsOf(ms), ignored, |recs|);
    Targets(GroupsOf(ms), ignored)
  }

  /** `elems[j]` is the first of `elems` in its group. */
  predicate LeadsGroup(recs: seq<Member>, elems: seq<nat>, j: nat)
    requires j < |elems| && Within(recs, elems)
  {
    forall j' :: 0 <= j' < j ==> recs[elems[j']].group != recs[elems[j]].group
  }

  /** `activateGroups(elems, ignored)` in terms of the page: it clicks
      position `t` exactly when `t` is the first of `elems` in its group,
      that group is not ignored, and the tally of its members is falsy. */
  lemma ClickedIffLeads(recs: seq<Member>, elems: seq<nat>, ignored: seq<string>)
    requires Indexed(recs) && Within(recs, elems)
    ensures forall t :: t in Clicked(recs, elems, ignored) <==>
              exists j :: 0 <= j < |elems| && elems[j] == t && LeadsGroup(recs, elems, j) &&
                recs[t].group !in ignored && !TallyTruthy(TallyOf(FlagsNamed(Pick(recs, elems), recs[t].group)))
  {
    var ms := Pick(recs, elems);
    ClickedAreFirstOfEligible(ms, ignored);
    forall t | t in Clicked(recs, elems, ignored)
      ensures exists j :: 0 <= j < |elems| && elems[j] == t && LeadsGroup(recs, elems, j) &&
                recs[t].group !in ignored && !TallyTruthy(TallyOf(FlagsNamed(ms, recs[t].group)))
    {
      var i :| 0 <= i < |ms| && ms[i].index == t && FirstOfGroup(ms, i) &&
                ms[i].group !in ignored && !TallyTruthy(TallyOf(FlagsNamed(ms, ms[i].group)));
      assert elems[i] == t;
      assert LeadsGroup(recs, elems, i);
    }
    forall j | 0 <= j < |elems| && LeadsGroup(recs, elems, j) &&
               recs[elems[j]].group !in ignored && !TallyTruthy(TallyOf(FlagsNamed(ms, recs[elems[j]].group)))
      ensures elems[j] in Clicked(recs, elems, ignored)
    {
      assert FirstOfGroup(ms, j);
    }
  }

  /** Every member of `g` is a position of `recs` filed under `g`'s name. */
  predicate Filed(g: Group, recs: seq<Member>) {
    forall t :: t in g.members ==> t < |recs| && recs[t].group == g.name
  }

  /** Every group is filed in `recs`. */
  predicate NamedBy(gs: seq<Group>, recs: seq<Member>) {
    forall j :: 0 <= j < |gs| ==> Filed(gs[j], recs)
  }

  /** The positions `ts` lie in pairwise distinct groups of `recs`. */
  predicate DistinctGroups(ts: seq<nat>, recs: seq<Member>) {
    forall a, b :: 0 <= a < b < |ts| ==> ts[a] < |recs| && ts[b] < |recs| && recs[ts[a]].group != recs[ts[b]].group
  }

  /** A position whose group differs from those of `ts` extends them. */
  lemma DistinctSnoc(ts: seq<nat>, x: nat, recs: seq<Member>)
    requires DistinctGroups(ts, recs) && x < |recs|
    requires forall a :: 0 <= a < |ts| ==> ts[a] < |recs| && recs[ts[a]].group != recs[x].group
    ensures DistinctGroups(ts + [x], recs)
  {
    var ts' := ts + [x];
    forall a, b | 0 <= a < b < |ts'|
      ensures ts'[a] < |recs| && ts'[b] < |recs| && recs[ts'[a]].group != recs[ts'[b]].group
    {
      assert ts'[a] == ts[a];
      if b < |ts| { assert ts'[b] == ts[b]; }
    }
  }

  /** Groups of distinct names give targets of distinct groups. */
  lemma {:induction false} TargetsDistinct(gs: seq<Group>, ignored: seq<string>, recs: seq<Member>)
    requires NamedBy(gs, recs)
    requires forall a, b :: 0 <= a < b < |gs| ==> gs[a].name != gs[b].name
    ensures DistinctGroups(Targets(gs, ignored), recs)
  {
    if gs != [] {
      var last := |gs| - 1;
      var init := gs[..last];
      var g := gs[last];
      var ti := Targets(init, ignored);
      assert forall j :: 0 <= j < |init| ==> init[j] == gs[j];
      TargetsDistinct(init, ignored, recs);
      if Eligible(g, ignored) {
        var x := g.members[0];
        assert Filed(g, recs) && x in g.members;
        TargetsOfGroups(init, ignored);
        forall a | 0 <= a < |ti|
          ensures ti[a] < |recs| && recs[ti[a]].group != recs[x].group
        {
          assert ti[a] in ti;
          var j :| 0 <= j < |init| && Eligible(init[j], ignored) && init[j].members[0] == ti[a];
          assert Filed(gs[j], recs) && ti[a] in gs[j].members;
        }
        DistinctSnoc(ti, x, recs);
        assert Targets(gs, ignored) == ti + [x];
      } else {
        assert Targets(gs, ignored) == ti;
      }
    }
  }

  /** `activateGroups` clicks at most one position per group: the clicked
      positions lie in pairwise distinct groups. */
  lemma ClickedDistinct(recs: seq<Member>, elems: seq<nat>, ignored: seq<string>)
    requires Indexed(recs) && Within(recs, elems)
    ensures DistinctGroups(Clicked(recs, elems, ignored), recs)
  {
    var ms := Pick(recs, elems);
    var gs := GroupsOf(ms);
    var ns := NamesOf(ms);
    GroupsOfIsPartition(ms);
    NamesOfSpec(ms);
    forall j | 0 <= j < |gs|
      ensures Filed(gs[j], recs)
    {
      MembersNamedFrom(ms, ns[j]);
      forall t | t in gs[j].members
        ensures t < |recs| && recs[t].group == gs[j].name
      {
        assert t in MembersNamed(ms, ns[j]);
        var i :| 0 <= i < |ms| && ms[i].index == t && ms[i].group == ns[j];
        assert ms[i] == recs[elems[i]];
      }
    }
    assert forall a, b :: 0 <= a < b < |gs| ==> gs[a].name == ns[a] && gs[b].name == ns[b];
    TargetsDistinct(gs, ignored, recs);
    assert Clicked(recs, elems, ignored) == Targets(gs, ignored);
  }

  /** Every clicked position is one of `elems`. */
  lemma ClickedFrom(recs: seq<Member>, elems: seq<nat>, ignored: seq<string>)
    requires Indexed(recs) && Within(recs, elems)
    ensures forall k :: 0 <= k < |Clicked(recs, elems, ignored)| ==> Clicked(recs, elems, ignored)[k] in elems
  {
    var ms := Pick(recs, elems);
    var ts := Clicked(recs, elems, ignored);
    assert ts == Targets(GroupsOf(ms), ignored);
    TargetsFromMembers(ms, ignored);
    forall k | 0 <= k < |ts|
      ensures ts[k] in elems
    {
      assert ts[k] in ts;
      var i :| 0 <= i < |ms| && ms[i].index == ts[k];
      assert ms[i] == recs[elems[i]];
    }
  }
}
