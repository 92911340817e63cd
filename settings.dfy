/** The attribute schema every version starts from: three attribute names,
    the active class name, a prefix, and the options `applySettings` takes. */
module Settings {
  import opened Js

  /** `ItemType`: content 1, link 2, both 3. */
  datatype ItemKind = Content | Link | Both

  /** The bit mask the source uses for each kind. */
  function Bits(kind: ItemKind): nat {
    match kind
    case Content => 1
    case Link => 2
    case Both => 3
  }

  /** The attribute names and the active class name in use. */
  datatype Names = Names(linkOfGroup: string, contentOfGroup: string, keyInGroup: string, activeClass: string)

  /** The names before any prefix is applied. */
  const DefaultNames: Names := Names("link-of-group", "content-of-group", "key-in-group", "active")

  const DefaultPrefix: string := "data-"

  /** The options `applySettings` recognises; None means "not given". */
  datatype Options = Options(
    prefix: Option<string>,
    linkOfGroup: Option<string>,
    contentOfGroup: Option<string>,
    keyInGroup: Option<string>,
    activeClass: Option<string>,
    ignoredToActivateGroups: Option<seq<string>>)

  /** `applySettings()` called with no options. */
  const NoOptions: Options := Options(None, None, None, None, None, None)

  /** The names after the options given have overwritten them. */
  function Merged(n: Names, o: Options): Names {
    Names(o.linkOfGroup.GetOr(n.linkOfGroup), o.contentOfGroup.GetOr(n.contentOfGroup),
          o.keyInGroup.GetOr(n.keyInGroup), o.activeClass.GetOr(n.activeClass))
  }

  /** `makePrefix` applied to the three attribute names; the class name keeps
      no prefix. */
  function Prefixed(n: Names, prefix: string): Names {
    n.(linkOfGroup := prefix + n.linkOfGroup, contentOfGroup := prefix + n.contentOfGroup,
       keyInGroup := prefix + n.keyInGroup)
  }

  /** With no options the page uses `data-link-of-group`,
      `data-content-of-group`, `data-key-in-group` and the class `active`. */
  lemma DefaultSchema()
    ensures Prefixed(Merged(DefaultNames, NoOptions), DefaultPrefix) ==
            Names("data-link-of-group", "data-content-of-group", "data-key-in-group", "active")
  {
    assert Merged(DefaultNames, NoOptions) == DefaultNames;
    PrefixJoins(DefaultPrefix, DefaultNames.linkOfGroup, "data-link-of-group");
    PrefixJoins(DefaultPrefix, DefaultNames.contentOfGroup, "data-content-of-group");
    PrefixJoins(DefaultPrefix, DefaultNames.keyInGroup, "data-key-in-group");
  }

  /** Putting the prefix in front of a name gives the joined text. */
  lemma PrefixJoins(prefix: string, name: string, joined: string)
    requires |joined| == |prefix| + |name|
    requires joined[..|prefix|] == prefix && joined[|prefix|..] == name
    ensures prefix + name == joined
  {
    assert joined == joined[..|prefix|] + joined[|prefix|..];
  }

  /** Each attribute name gets the prefix in front of it exactly once and the
      class name none; a second application would add it again, which is why
      `applySettings` may run only once. */
  lemma PrefixedOnce(n: Names, prefix: string)
    ensures var r := Prefixed(n, prefix);
            r.activeClass == n.activeClass &&
            r.linkOfGroup[..|prefix|] == prefix && r.linkOfGroup[|prefix|..] == n.linkOfGroup &&
            r.contentOfGroup[..|prefix|] == prefix && r.contentOfGroup[|prefix|..] == n.contentOfGroup &&
            r.keyInGroup[..|prefix|] == prefix && r.keyInGroup[|prefix|..] == n.keyInGroup
    ensures prefix != "" ==> Prefixed(Prefixed(n, prefix), prefix) != Prefixed(n, prefix)
  {
    if prefix != "" {
      assert |Prefixed(Prefixed(n, prefix), prefix).keyInGroup| != |Prefixed(n, prefix).keyInGroup|;
    }
  }
}
