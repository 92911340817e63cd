# kcSwitcher in Dafny

kcSwitcher is a small browser widget. It ties "link" elements to "content"
elements through three HTML attributes: the group of a link, the group of a
content element, and the key of an item within its group. In each group one
key is active, and the items with that key carry an active CSS class.
Clicking a link makes its key the active one for its group. Before every
change a "before" handler may veto it, and after it an "after" handler is
told. When the page loads, every group with no active item gets its first
item activated.

Three versions are modelled:

- `js/kcSwitcher-0.5.1.4.js` is a standalone version. It scans
  `document.getElementsByTagName("*")` itself and edits `className` strings
  by hand. It is modelled by `KcSwitcher514` and `ClassTokens`.
- `js/kcSwitcher-0.5.1.3.js` is a standalone version that builds CSS
  selectors for jQuery.
- `js/jq-kcSwitcher-0.5.1.3.js` is the same code as a jQuery plugin.

The two 0.5.1.3 files are modelled together by `Selector513` and
`KcSwitcher513`. Within what is modelled they differ in one place only,
`addHandler` with a `null` group, and the field
`KcSwitcher513.Switcher.variant` selects which file's behaviour that branch
follows. Outside the model they also differ in the global name of the
object and in how `init` is scheduled at load (see "Left out").

Modules:

- `Js`: the JavaScript rules the widget relies on.
  - `null`/`undefined` as `Option.None`, truthiness of strings and `||`.
  - How a value becomes a property name, such as `obj[null]` reading
    `"null"`.
  - `Result`, for the one exception the 0.5.1.3 versions throw.
- `Settings`: the attribute names, the active class, the `data-` prefix and
  the options `applySettings` reads.
- `Events`: the handler tables and `fireEvent`. The code is the same in all
  three files.
- `Grouping`: the bookkeeping of `activateGroups`, also shared by all three
  files.
  - The `hasActive += test` tally with JavaScript's `+` on `false`, `true`
    and `undefined`.
  - The groups, collected in order of first appearance.
  - The elements the selecting loop clicks.
- `ClassTokens`: `hasActiveClass`, `trim`, `removeActiveClass` and
  `addActiveClass` of 0.5.1.4, on `className` strings.
- `KcSwitcher514`: specification functions of a page of elements, the
  lemmas about them, and `class Switcher`.
  - The `Switcher` fields are the source's object fields and its two
    handler tables.
  - The page is an `array<Element>` that its methods update in place, with
    loops where the source has them.
- `Selector513`: `getItemsSelector` as a string builder, and a reading of the
  selectors it writes.
  - The reading covers comma-separated alternatives of `.class`, `[name]`
    and `[name=value]` tests.
  - The round trip `ParseGroup(RenderGroup(cs)) == Some(cs)` is proved.
  - A page node matches a selector when some alternative holds of it.
- `KcSwitcher513`: the 0.5.1.3 specification functions and lemmas, and its
  `class Switcher` over an `array<Node>`. Here the class names of a node are
  an abstraction: a set, to which `addClass` adds the active class and from
  which `removeClass` takes it, leaving the other classes as they are.

The model keeps each version's own quirks and states them as lemmas. None of
them is corrected:

- **The 0.5.1.4 precedence slip.** In `getElements` (lines 187 and 190),
  `kind & self.ItemType.link == self.ItemType.link` parses as
  `kind & (link == link)`, that is `kind & 1`.
  - A link query therefore returns nothing, so `getLinks` is always empty.
  - A content query selects on "link attribute, else content attribute",
    exactly like a both-kinds query.
  - `KcSwitcher514.KindQuirk` states this.
- **The 0.5.1.4 `getActiveKey`.** It returns the key of the first content
  element of the group whether or not that element is active.
  `KcSwitcher514.ActiveKeyIgnoresClear` states that clearing the group does
  not change the answer.
- **The 0.5.1.4 tally.** `hasActiveClass` answers `true` or `undefined`.
  `false + undefined` is `NaN`, so a group counts as "has an active member"
  only when all its members are active. `Grouping.TallyAllOrNothing` and
  `KcSwitcher514.TallyFalsyIffSomeInactive` state this. The 0.5.1.3 tally,
  over `hasClass`'s `true`/`false`, counts as intended
  (`KcSwitcher513.TallyFalsyIffNoneActive`).
- **The 0.5.1.3 standalone `addHandler`.** With a `null` group it stores
  `null` under the event's name in the per-group table and drops the
  handler, so global handlers never exist in that file.
  `Events.RegisterStandalone` and `Events.NoGlobalCalls` state this.
- **`setActiveKey` always answers `false`.** This holds in every version, so
  `fireLinkClick` does too.
- **0.5.1.4 `removeActiveClass` can expose the class.** `trim` also strips
  U+00A0 and other `\s` characters that the class-separator pattern leaves
  alone. The class name `"\u00A0active"` (a no-break space, then `active`) does not have the class, yet after
  removal it is `"active"`, which has it.
  `ClassTokens.RemoveCanExposeToken` states this.
- **Group resolution differs between versions.** 0.5.1.4 takes the link
  attribute when it is non-empty; 0.5.1.3 takes it whenever it is present.
  `KcSwitcher513.GroupResolutionVersions` states when the two agree.

## Model

| member | source | states |
|---|---|---|
| Js.Or | js/kcSwitcher-0.5.1.4.js:168-171 | `a \|\| b` is truthy iff either is, and is `a` exactly when `a` is truthy |
| Settings.DefaultSchema | js/kcSwitcher-0.5.1.4.js:11-21 | with no options the page uses `data-link-of-group`, `data-content-of-group`, `data-key-in-group` and class `active` |
| Settings.PrefixedOnce | js/kcSwitcher-0.5.1.4.js:56-62 | each attribute name becomes prefix + old name, the active class keeps no prefix, and a second prefixing would change the names again |
| Events.FireEvent | js/kcSwitcher-0.5.1.4.js:229-239 | the global handler runs first; the group handler runs iff one is registered and the global one did not return exactly `false`; the answer is false iff an invoked handler returned exactly `false`; the plugin file (js/jq-kcSwitcher-0.5.1.3.js, lines 243-253) and the 0.5.1.3 file have the same code |
| Events.RegisterReplaces | js/jq-kcSwitcher-0.5.1.3.js:104-113 | registering the same event and scope again replaces the earlier handler |
| Events.RegisteredIsInvoked | js/kcSwitcher-0.5.1.4.js:102-111 | a handler registered globally is the first one `fireEvent` calls; one registered for a group is called unless the global handler vetoes |
| Events.RegisterIsolated | js/kcSwitcher-0.5.1.4.js:102-111 | registering a handler for one event leaves the dispatch of every other event unchanged |
| Events.RegisterStandalone | js/kcSwitcher-0.5.1.3.js:102-111 | a `null` group leaves the global table as it was, stores `null` under the event's name (so no group of that name has handlers), and leaves other groups alone; a named group registers as in the other versions |
| Events.NoGlobalCalls | js/kcSwitcher-0.5.1.3.js:242-252 | with an empty global table `fireEvent` calls only a per-group handler and refuses exactly when that handler returns `false` |
| Grouping.TallyAllOrNothing | js/kcSwitcher-0.5.1.4.js:297 | adding `true`/`undefined` tests to `false` gives their count when all are `true` and NaN otherwise, so the tally is truthy iff the group is non-empty and all tests are `true` |
| Grouping.TallyCountsTrue | js/kcSwitcher-0.5.1.3.js:304 | adding `true`/`false` tests gives a number that is truthy iff some test is `true` |
| Grouping.TallyFalsyIffUndefined | js/kcSwitcher-0.5.1.4.js:297 | with `true`/`undefined` tests, the tally of a group that occurs is falsy iff one of its members tested `undefined` |
| Grouping.TallyFalsyIffNoTrue | js/kcSwitcher-0.5.1.3.js:304 | with `true`/`false` tests, the tally of a group is falsy iff none of its members tested `true` |
| Grouping.Find | js/kcSwitcher-0.5.1.4.js:294 | the lookup `groups[key]` finds the group collected under that name, or reports that none was; inherited property names are not modelled (see Left out) |
| Grouping.NamesOfSpec | js/kcSwitcher-0.5.1.4.js:290-299 | the collected group names are distinct and are exactly the groups of the elements |
| Grouping.GroupsOfIsPartition | js/kcSwitcher-0.5.1.4.js:290-299 | the collecting loop builds one group per name, in order of first appearance, with the tally and the members of that name in order |
| Grouping.MembersNamedFrom | js/kcSwitcher-0.5.1.4.js:298 | a group's members are among the collected elements, each filed under that group's name |
| Grouping.FlagsNamedSpec | js/kcSwitcher-0.5.1.4.js:297 | a group's class tests are exactly the tests of its members |
| Grouping.FirstMemberHeads | js/kcSwitcher-0.5.1.4.js:298 | the first element of a group heads that group's element list |
| Grouping.TargetsOfGroups | js/kcSwitcher-0.5.1.4.js:301-306 | the selecting loop clicks exactly the first element of each group that is not ignored, not empty and whose tally is falsy |
| Grouping.ClickedAreFirstOfEligible | js/kcSwitcher-0.5.1.4.js:286-307 | in terms of the elements alone: an element is clicked iff it is the first of its group and that group is not ignored and has a falsy tally |
| Grouping.TargetsFromMembers | js/kcSwitcher-0.5.1.4.js:304 | every clicked element is one of the collected ones |
| Grouping.BoundedTargets | js/kcSwitcher-0.5.1.4.js:304 | the click targets of groups drawn from a page are positions on that page |
| Grouping.Pick | js/kcSwitcher-0.5.1.4.js:290-299 | the collecting loop reads one record per element of `elements`, in their order |
| Grouping.Clicked | js/kcSwitcher-0.5.1.4.js:286-307 | the positions `activateGroups` clicks are positions on the page |
| Grouping.TargetsDistinct | js/kcSwitcher-0.5.1.4.js:301-306 | groups of distinct names, whose members are filed under those names, yield clicked elements of pairwise distinct groups |
| Grouping.ClickedDistinct | js/kcSwitcher-0.5.1.4.js:286-307 | `activateGroups` clicks at most one position per group: clicked positions lie in pairwise distinct groups; the 0.5.1.3 files (js/kcSwitcher-0.5.1.3.js, lines 294-317) have the same loops |
| Grouping.ClickedFrom | js/kcSwitcher-0.5.1.4.js:286-307 | every clicked position is one of the elements `activateGroups` was given |
| Grouping.ClickedIffLeads | js/kcSwitcher-0.5.1.4.js:286-307 | a position is clicked iff it is the first of the elements in its group, that group is not ignored, and the tally of its members is falsy; the 0.5.1.3 files (js/kcSwitcher-0.5.1.3.js, lines 294-317) have the same loops |
| ClassTokens.Normalize | js/kcSwitcher-0.5.1.4.js:327 | `replace(rclass, " ")` turns each tab, CR, LF and FF into a space and keeps every other character and the length |
| ClassTokens.IndexFrom | js/kcSwitcher-0.5.1.4.js:351 | `indexOf` returns the first position where the pattern occurs, or -1 when it occurs nowhere |
| ClassTokens.StripAll | js/kcSwitcher-0.5.1.4.js:351-353 | the removal loop ends with no occurrence of the padded token left |
| ClassTokens.TrimSlice | js/kcSwitcher-0.5.1.4.js:332-336 | `trim` cuts exactly a leading and a trailing run of whitespace and leaves a string with no outer whitespace |
| ClassTokens.TrimPadded | js/kcSwitcher-0.5.1.4.js:332-336 | trimming a string padded with one space on each side gives back the string when it has no outer whitespace |
| ClassTokens.RemovedHasNoActive | js/kcSwitcher-0.5.1.4.js:343-361 | after `removeActiveClass`, `hasActiveClass` is false |
| ClassTokens.AddedHasActive | js/kcSwitcher-0.5.1.4.js:367-384 | after `addActiveClass`, `hasActiveClass` is true |
| ClassTokens.AddedIdempotent | js/kcSwitcher-0.5.1.4.js:367-384 | a second `addActiveClass` leaves the class name as the first left it |
| ClassTokens.AddedNoDuplicate | js/kcSwitcher-0.5.1.4.js:373-380 | when the class is already present nothing is appended: the result is no longer than the class name, and a class name without tabs, line breaks, form feeds or outer white space comes back unchanged |
| ClassTokens.RemovedKeepsOthers | js/kcSwitcher-0.5.1.4.js:343-361 | for a class name whose only whitespace is plain spaces, `removeActiveClass` keeps every other one-token class of the element and adds none |
| ClassTokens.AddedKeepsOthers | js/kcSwitcher-0.5.1.4.js:367-384 | for a class name whose only whitespace is plain spaces, `addActiveClass` keeps every other one-token class of the element and adds none besides the active class |
| ClassTokens.HelpersKeepPlainSpacing | js/kcSwitcher-0.5.1.4.js:343-384 | both helpers leave a class name whose only whitespace is plain spaces |
| ClassTokens.RemoveCanExposeToken | js/kcSwitcher-0.5.1.4.js:332-361 | `"\u00A0active"` lacks the class, removal turns it into `"active"`, and `"active"` has the class |
| ClassTokens.RemoveCanExposeOther | js/kcSwitcher-0.5.1.4.js:332-361 | `"\u00A0b"` lacks the class `b`, removing `x` turns it into `"b"`, and `"b"` has the class `b`: without plain spacing another class can appear |
| KcSwitcher514.GroupForElement | js/kcSwitcher-0.5.1.4.js:168-171 | the link-group attribute when it is non-empty, else the content-group attribute |
| KcSwitcher514.SelectedByGroupAndKey | js/kcSwitcher-0.5.1.4.js:192-197 | an element is selected iff its resolved group is non-empty and passes the group filter, and its key is non-empty and passes the key filter |
| KcSwitcher514.Query | js/kcSwitcher-0.5.1.4.js:181-201 | the result lists, in strictly increasing document order, exactly the elements that pass both filters |
| KcSwitcher514.KindQuirk | js/kcSwitcher-0.5.1.4.js:186-191 | `kind & link == link` is `kind & 1`: a link query returns nothing, and a content query returns what a both-kinds query does |
| KcSwitcher514.QueryReadsAttrs | js/kcSwitcher-0.5.1.4.js:181-201 | two pages with the same attributes give the same query results, whatever their class names |
| KcSwitcher514.OverlayComplete | js/kcSwitcher-0.5.1.4.js:218-220 | once the loop has visited every element that changes, the page is the target page |
| KcSwitcher514.TallyFalsyIffSomeInactive | js/kcSwitcher-0.5.1.4.js:297 | a group's `hasActive` is falsy iff one of its elements lacks the active class |
| KcSwitcher514.ClickedGroups | js/kcSwitcher-0.5.1.4.js:286-307 | an element is clicked iff it leads its group and that group is not ignored and has an element without the class |
| KcSwitcher514.Activate | js/kcSwitcher-0.5.1.4.js:247-258 | attributes and page length are kept, and the earlier handler log is a prefix of the new one |
| KcSwitcher514.Click | js/kcSwitcher-0.5.1.4.js:265-269 | a click keeps attributes and page length |
| KcSwitcher514.ClickSpares | js/kcSwitcher-0.5.1.4.js:265-269 | a click, allowed or vetoed, leaves alone an element outside the group it activates |
| KcSwitcher514.OtherGroupSpared | js/kcSwitcher-0.5.1.4.js:265-269 | a click on an element of a group leaves alone every element of another group |
| KcSwitcher514.ClickMarksOwn | js/kcSwitcher-0.5.1.4.js:265-269 | an allowed click on an element with a group and a key leaves that element carrying the active class |
| KcSwitcher514.ClickExtendsMarks | js/kcSwitcher-0.5.1.4.js:265-269 | an allowed click on an element with a group and a key keeps the active class on every marked element of another group and adds it to the clicked one |
| KcSwitcher514.ClickAllUntouched | js/kcSwitcher-0.5.1.4.js:301-306 | clicks leave every element outside the groups they activate exactly as it was |
| KcSwitcher514.ClickAllActivates | js/kcSwitcher-0.5.1.4.js:301-306 | clicks on elements of distinct groups, each with a group and a key and none vetoed, leave every clicked element carrying the active class |
| KcSwitcher514.DefaultsMarkClicked | js/kcSwitcher-0.5.1.4.js:88 | after the activation `init` ends with, every element `activateGroups` clicked carries the active class unless a before-change handler vetoed its group and key |
| KcSwitcher514.ClickAllStep | js/kcSwitcher-0.5.1.4.js:301-306 | clicking one more element is one more `fireLinkClick` after the earlier ones |
| KcSwitcher514.Records | js/kcSwitcher-0.5.1.4.js:290-299 | one record per page position, holding the element's group key and a class test that is `true` iff the element has the class and `undefined` otherwise, never `false` |
| KcSwitcher514.ActivateVetoed | js/kcSwitcher-0.5.1.4.js:248-249 | after a veto the page is unchanged and only before-change handlers were called |
| KcSwitcher514.ActivatePointwise | js/kcSwitcher-0.5.1.4.js:249-254 | an allowed change acts on each element separately |
| KcSwitcher514.ActivatedElement | js/kcSwitcher-0.5.1.4.js:249-254 | an element matching group and key carries the class afterwards; for a class name whose only whitespace is plain spaces, one of the group with another key loses it and every other one-token class of the element is kept and none is added; an element outside the group is untouched |
| KcSwitcher514.ActivateMarks | js/kcSwitcher-0.5.1.4.js:247-258 | after an allowed change the matching elements carry the class, the rest of the group does not, and elements outside the group are unchanged |
| KcSwitcher514.ActivateTwice | js/kcSwitcher-0.5.1.4.js:247-258 | setting the same key twice leaves the same elements active as setting it once |
| KcSwitcher514.ActivatedSettles | js/kcSwitcher-0.5.1.4.js:247-258 | one element activated twice has the active class exactly when it has it after once |
| KcSwitcher514.ActiveKeyIgnoresClear | js/kcSwitcher-0.5.1.4.js:136-141 | clearing a group does not change what `getActiveKey` reads, because it never looks at the class |
| KcSwitcher514.Switcher.constructor | js/kcSwitcher-0.5.1.4.js:11-38 | the default names, the prefix `data-`, no ignored groups and empty handler tables |
| KcSwitcher514.Switcher.ApplySettings | js/kcSwitcher-0.5.1.4.js:49-67 | the first call merges the options and prefixes the three attribute names; every later call changes nothing |
| KcSwitcher514.Switcher.AddHandler | js/kcSwitcher-0.5.1.4.js:102-111 | `null` registers in the global table; a group registers in its table, which is created when missing |
| KcSwitcher514.Switcher.TabChanged | js/kcSwitcher-0.5.1.4.js:118-120 | registers an `onTabChanged` handler |
| KcSwitcher514.Switcher.BeforeTabChanged | js/kcSwitcher-0.5.1.4.js:127-129 | registers a `beforeTabChanged` handler |
| KcSwitcher514.Switcher.GetElements | js/kcSwitcher-0.5.1.4.js:181-201 | the loop returns the query result for the current names |
| KcSwitcher514.Switcher.GetActiveKey | js/kcSwitcher-0.5.1.4.js:136-141 | a key is returned iff some content-matching element exists, and it is the first such element's key, active or not |
| KcSwitcher514.Switcher.GetContents | js/kcSwitcher-0.5.1.4.js:149-151 | by the precedence slip it returns the both-kinds query |
| KcSwitcher514.Switcher.GetLinks | js/kcSwitcher-0.5.1.4.js:159-161 | by the precedence slip it is always empty |
| KcSwitcher514.Switcher.RemoveActiveClass | js/kcSwitcher-0.5.1.4.js:343-361 | only the element's class name changes, to the removed form |
| KcSwitcher514.Switcher.AddActiveClass | js/kcSwitcher-0.5.1.4.js:367-384 | only the element's class name changes, to the added form |
| KcSwitcher514.Switcher.UnActivateAll | js/kcSwitcher-0.5.1.4.js:216-221 | every element of the group loses the class, and the rest of the page is unchanged |
| KcSwitcher514.Switcher.MarkAll | js/kcSwitcher-0.5.1.4.js:251-254 | every element with the group and key gains the class, and the rest of the page is unchanged |
| KcSwitcher514.Switcher.FireEventLogged | js/kcSwitcher-0.5.1.4.js:229-239 | appends the invoked handlers to the log and answers as `fireEvent` |
| KcSwitcher514.Switcher.SetActiveKey | js/kcSwitcher-0.5.1.4.js:247-258 | answers false, and the page and log become those of the activation |
| KcSwitcher514.Switcher.FireLinkClick | js/kcSwitcher-0.5.1.4.js:265-269 | answers false and activates the element's own group and key |
| KcSwitcher514.Switcher.CollectGroups | js/kcSwitcher-0.5.1.4.js:290-299 | the loop builds the groups of the elements' records |
| KcSwitcher514.Switcher.ClickGroups | js/kcSwitcher-0.5.1.4.js:301-306 | the selecting loop clicks, in order, the first element of each group not ignored, not empty and without truthy `hasActive` |
| KcSwitcher514.Switcher.ActivateGroups | js/kcSwitcher-0.5.1.4.js:286-307 | the page and log become those of clicking, in order, the elements the selecting loop picks |
| KcSwitcher514.Switcher.ActivateGroup | js/kcSwitcher-0.5.1.4.js:275-277 | activates the group's content elements with nothing ignored |
| KcSwitcher514.Switcher.Init | js/kcSwitcher-0.5.1.4.js:72-94 | runs once: applies the default prefix unless settings were applied, then activates the content groups not ignored |
| KcSwitcher514.Switcher.ActivateAll | js/kcSwitcher-0.5.1.4.js:88 | activates the groups of all content elements except the ignored ones |
| KcSwitcher514.ActivateDefaults | js/kcSwitcher-0.5.1.4.js:88 | clicking, in order, the elements `activateGroups` picks among all content elements keeps every element's attributes and the page length |
| Selector513.SelectorShapes | js/kcSwitcher-0.5.1.3.js:193-217 | content gives `[content=g][key=k]`, link gives `[link=g][key=k]`, both gives link + `,` + content; the plugin file (js/jq-kcSwitcher-0.5.1.3.js, lines 194-218) has the same code |
| Selector513.ItemsSelectorRenders | js/kcSwitcher-0.5.1.3.js:199-216 | the selector text is the rendering of its alternatives |
| Selector513.ParseRenderGroup | js/kcSwitcher-0.5.1.3.js:193-217 | reading a rendered selector group gives back its alternatives when the names and values are plain |
| Selector513.ItemsSelectorParses | js/kcSwitcher-0.5.1.3.js:193-217 | with safe names and filters the selector reads back as its alternatives |
| Selector513.Select | js/kcSwitcher-0.5.1.3.js:158-160 | `jQuery(s)` lists, in increasing document order, exactly the matching nodes |
| Selector513.StructuredMeaning | js/kcSwitcher-0.5.1.3.js:199-216 | an alternative holds iff the node has the key and the group attribute of a kind the selector covers, with the filters met |
| Selector513.ItemsSelectorMeaning | js/kcSwitcher-0.5.1.3.js:193-217 | a node matches the selector iff it is an item of that kind, group and key; the plugin file (js/jq-kcSwitcher-0.5.1.3.js, lines 194-218) has the same code |
| Selector513.ActiveSelectorMeaning | js/kcSwitcher-0.5.1.3.js:146-150 | the active selector matches iff the node has the active class and is a content item of the group |
| Selector513.CommaIffBoth | js/kcSwitcher-0.5.1.3.js:211-216 | for safe names and filters, the selector contains a comma iff the kind is both; the plugin file (js/jq-kcSwitcher-0.5.1.3.js, lines 212-217) has the same code |
| Selector513.EqualsIffFilter | js/jq-kcSwitcher-0.5.1.3.js:200-210 | for attribute names that are identifiers, `=value` appears iff a group or key filter is given |
| KcSwitcher513.GroupOfItem | js/kcSwitcher-0.5.1.3.js:177-182 | an item's resolved group and key are defined and its key passes the key filter; a link item's resolved group is its link attribute and passes the group filter; a content item without a link attribute resolves to its content attribute, which passes the group filter. A content item with a link attribute resolves to that link attribute, which need not pass the filter |
| KcSwitcher513.GroupResolutionVersions | js/kcSwitcher-0.5.1.3.js:177-182 | 0.5.1.4 and 0.5.1.3 resolve the same group unless the link attribute is present but empty and the content attribute is not |
| KcSwitcher513.Cleared | js/kcSwitcher-0.5.1.3.js:232-234 | the attributes and the page length are kept |
| KcSwitcher513.Marked | js/kcSwitcher-0.5.1.3.js:264 | the attributes and the page length are kept |
| KcSwitcher513.Activate | js/kcSwitcher-0.5.1.3.js:260-268 | attributes and page length are kept, and the earlier handler log is a prefix of the new one |
| KcSwitcher513.ActivateVetoed | js/kcSwitcher-0.5.1.3.js:261-262 | after a veto the page is unchanged and only before-change handlers were called; the plugin file (js/jq-kcSwitcher-0.5.1.3.js, lines 261-269) has the same code |
| KcSwitcher513.ActivatedNode | js/kcSwitcher-0.5.1.3.js:263-264 | for safe names and values, clearing and then marking one node gives the node the direct description prescribes |
| KcSwitcher513.ActivateExact | js/kcSwitcher-0.5.1.3.js:260-268 | an allowed change does to each node exactly what the direct description says |
| KcSwitcher513.ActivateMarks | js/kcSwitcher-0.5.1.3.js:260-268 | afterwards the items of the group with the key carry the class, the other items of the group do not, and nodes outside the group are unchanged; the plugin file (js/jq-kcSwitcher-0.5.1.3.js, lines 261-269) has the same code |
| KcSwitcher513.ActivateTwice | js/kcSwitcher-0.5.1.3.js:260-268 | setting the same key twice leaves the page as setting it once |
| KcSwitcher513.ActivatedSettles | js/kcSwitcher-0.5.1.3.js:260-268 | one node activated twice is the node activated once |
| KcSwitcher513.ActiveKey | js/kcSwitcher-0.5.1.3.js:135-150 | throws `MissingGroupKey` exactly when the group is missing; the plugin file (js/jq-kcSwitcher-0.5.1.3.js, lines 137-152) has the same code |
| KcSwitcher513.ActiveKeyMeaning | js/kcSwitcher-0.5.1.3.js:146-150 | a key is returned iff some active content item of the group exists, and it is the first one's key |
| KcSwitcher513.ActivatedActiveContent | js/kcSwitcher-0.5.1.3.js:263-264 | a node that is active content after the change has the new key, and every content item with that key is active content |
| KcSwitcher513.SetThenGet | js/kcSwitcher-0.5.1.3.js:260-268 | after an allowed `setActiveKey(g, k)` for a key some content item has, `getActiveKey(g)` returns `k` |
| KcSwitcher513.FirstActive | js/kcSwitcher-0.5.1.3.js:149 | a page with active content has a first active content node |
| KcSwitcher513.ClearedNode | js/kcSwitcher-0.5.1.3.js:233 | for safe names and values, a node of the group is not active content after `removeClass` |
| KcSwitcher513.ClearedHasNoActiveKey | js/kcSwitcher-0.5.1.3.js:232-234 | after `unActivateAll(g)`, `getActiveKey(g)` returns nothing |
| KcSwitcher513.Click | js/kcSwitcher-0.5.1.3.js:275-279 | a click keeps attributes and page length |
| KcSwitcher513.ClickAll | js/kcSwitcher-0.5.1.3.js:309-314 | clicks keep attributes and page length |
| KcSwitcher513.ClickSpares | js/kcSwitcher-0.5.1.3.js:275-279 | for safe names and values, a click, allowed or vetoed, leaves alone a node that is no item of the group it activates |
| KcSwitcher513.ClickMarksOwn | js/kcSwitcher-0.5.1.3.js:275-279 | for safe names and values, an allowed click on a node with a group and a key leaves that node carrying the active class |
| KcSwitcher513.ClickClears | js/kcSwitcher-0.5.1.3.js:275-279 | for safe names and values, an allowed click clears a node of its group that lacks its key |
| KcSwitcher513.ClickExtendsMarks | js/kcSwitcher-0.5.1.3.js:275-279 | for safe names and values, an allowed click on a node with a group and a key keeps the active class on every marked node that is no item of its group and adds it to the clicked one |
| KcSwitcher513.ClickAllUntouched | js/kcSwitcher-0.5.1.3.js:309-314 | for safe names and values, clicks leave every node outside the groups they activate exactly as it was; the plugin file (js/jq-kcSwitcher-0.5.1.3.js, lines 311-316) has the same loop |
| KcSwitcher513.ClickAllActivates | js/kcSwitcher-0.5.1.3.js:309-314 | for safe names and values, clicks none of which is vetoed leave every clicked node carrying the active class, provided no later click's group takes in a node clicked earlier |
| KcSwitcher513.LaterClickUnmarks | js/kcSwitcher-0.5.1.3.js:309-314 | when the `activateGroups` loop clicks two leaders in turn, a node clicked first, whose content attribute puts it into the group of the later click (through the both-kinds selector of lines 211-216) with another key, carries the class after its own click and loses it after the later one |
| KcSwitcher513.ClickAllStep | js/kcSwitcher-0.5.1.3.js:309-314 | clicking one more node is one more `fireLinkClick` after the earlier ones |
| KcSwitcher513.Records | js/kcSwitcher-0.5.1.3.js:297-307 | one record per page position, holding the node's group key and a `hasClass` answer that is `true` iff the node has the class and `false` otherwise, never `undefined` |
| KcSwitcher513.TallyFalsyIffNoneActive | js/kcSwitcher-0.5.1.3.js:304 | a group's `hasActive` is falsy iff none of its nodes has the active class |
| KcSwitcher513.ClickedGroups | js/kcSwitcher-0.5.1.3.js:294-317 | a node is clicked iff it leads its group and that group is not ignored and has no active node; the plugin file (js/jq-kcSwitcher-0.5.1.3.js, lines 296-319) has the same code |
| KcSwitcher513.Switcher.constructor | js/kcSwitcher-0.5.1.3.js:6-38 | the default names, the prefix `data-`, no ignored groups and empty handler tables |
| KcSwitcher513.Switcher.ApplySettings | js/kcSwitcher-0.5.1.3.js:46-62 | the first call merges the options and prefixes the three attribute names; every later call changes nothing; the plugin file (js/jq-kcSwitcher-0.5.1.3.js, lines 48-64) has the same code |
| KcSwitcher513.Switcher.AddHandler | js/kcSwitcher-0.5.1.3.js:102-111 | the standalone file stores `null` for a `null` group; the plugin file (js/jq-kcSwitcher-0.5.1.3.js, lines 104-113) registers a `null` group's handler globally instead |
| KcSwitcher513.Switcher.TabChanged | js/kcSwitcher-0.5.1.3.js:118-120 | registers an `onTabChanged` handler through the file's `addHandler` |
| KcSwitcher513.Switcher.BeforeTabChanged | js/kcSwitcher-0.5.1.3.js:127-129 | registers a `beforeTabChanged` handler through the file's `addHandler` |
| KcSwitcher513.Switcher.GetActiveKey | js/kcSwitcher-0.5.1.3.js:146-150 | the result is the active key of the current page and names, or the exception; the plugin file (js/jq-kcSwitcher-0.5.1.3.js, lines 148-152) has the same code |
| KcSwitcher513.Switcher.GetContents | js/kcSwitcher-0.5.1.3.js:158-160 | the nodes the content selector selects; for safe names and filters, exactly the content items of the group and key |
| KcSwitcher513.Switcher.GetLinks | js/kcSwitcher-0.5.1.3.js:168-170 | the nodes the link selector selects; for safe names and filters, exactly the link items of the group and key |
| KcSwitcher513.Switcher.UnActivateAll | js/kcSwitcher-0.5.1.3.js:232-234 | the selected nodes lose the class and nothing else changes |
| KcSwitcher513.Switcher.MarkAll | js/kcSwitcher-0.5.1.3.js:264 | the selected nodes gain the class and nothing else changes |
| KcSwitcher513.Switcher.FireEventLogged | js/kcSwitcher-0.5.1.3.js:242-252 | appends the invoked handlers to the log and answers as `fireEvent` |
| KcSwitcher513.Switcher.SetActiveKey | js/kcSwitcher-0.5.1.3.js:260-268 | answers false, and the page and log become those of the activation |
| KcSwitcher513.Switcher.FireLinkClick | js/kcSwitcher-0.5.1.3.js:275-279 | answers false and activates the node's own group and key, with names and handlers unchanged |
| KcSwitcher513.Switcher.CollectGroups | js/kcSwitcher-0.5.1.3.js:297-307 | the `each` loop builds the groups of the nodes' records |
| KcSwitcher513.Switcher.ClickGroups | js/kcSwitcher-0.5.1.3.js:309-314 | the `for ... in` loop clicks, in order, the first node of each remaining group |
| KcSwitcher513.Switcher.ActivateGroups | js/kcSwitcher-0.5.1.3.js:294-317 | the page and log become those of clicking the nodes the selecting loop picks among the selected nodes |
| KcSwitcher513.Switcher.ActivateGroup | js/kcSwitcher-0.5.1.3.js:285-287 | activates the group's content nodes with nothing ignored |
| KcSwitcher513.Switcher.Init | js/kcSwitcher-0.5.1.3.js:67-94 | runs once: applies the default prefix unless settings were applied, then activates the content groups not ignored |
| KcSwitcher513.Switcher.ActivateAll | js/kcSwitcher-0.5.1.3.js:88 | activates the groups of all selected content nodes except the ignored ones |

## Left out

- DOM event wiring: the click listener that `init` installs, jQuery's `on`/`delegate`/`live` choice by version, and the call of `init` at load.
  The two 0.5.1.3 files differ there: the standalone file runs `keyContentSwitcher.init()`, looked up when the page has loaded (js/kcSwitcher-0.5.1.3.js:320-322), and the plugin hands `self.init` itself to jQuery (js/jq-kcSwitcher-0.5.1.3.js:322).
- The global name of the object: `keyContentSwitcher` in the standalone 0.5.1.3 file and `jQuery.keyContentSwitcher` in the plugin (line 6 of each). The model has one `Switcher` class for both.
  What a listener does is modelled as `FireLinkClick`.
- `jQuery.extend` and the 0.5.1.4 copying loop: they copy any option given. Only the six option keys the widget reads are modelled, and an option present with the value `undefined` is read as absent, although js/kcSwitcher-0.5.1.4.js:51-53 copies it.
- The 0.5.1.3 deep `jQuery.extend` merges an `ignoredToActivateGroups` array element by element into the existing one. The model replaces the list.
- A handler is a total function of group and key, so registering a non-function is not expressible. The source tests `typeof === "function"` (js/kcSwitcher-0.5.1.4.js:232, :235), so such a registration acts as removing the handler.
- Group names that are inherited JavaScript property names. The model's tables hold own entries only. In the source:
  - `activateGroups` in 0.5.1.4 builds `groups = []`, so for a group named `length`, `push` or `constructor`, `groups[key]` is not `null`; line 298 then throws a TypeError and the rest of `activateGroups` (and of `init`) is skipped.
  - 0.5.1.3 builds `self.groups = {}` and throws at line 305 in the same way for `constructor`, `toString` or `__proto__`.
  - `addHandler` in 0.5.1.4 stores per-group handlers in `[]`; for a group named `length` the handler is written onto the number `0` and lost, so `fireEvent` never calls it.
  - The model files such a group or handler like any other name.
- `delete self.applySettings` / `delete self.init`: these are modelled as a flag that turns the later calls into no-ops.
- Selectors outside the subset the switcher writes match nothing in the model. The model reads `[name=]` as a test for the empty value, as jQuery's engine does.
- Selector513.ItemsSelectorMeaning, Selector513.ActiveSelectorMeaning, Selector513.CommaIffBoth: stated only for `SafeNames` and `SafeValue`, that is for names and filters made of word characters, `-` and characters from U+00C0 on (a filter may be empty). jQuery's engine reads other characters unquoted differently or rejects the selector, and that engine is not modelled.
- Selector513.EqualsIffFilter: stated only for the three attribute names that are identifiers (`AttrName`). An attribute name holding `=` would put `=` into a selector that has no filter.
- KcSwitcher513.ActivateMarks, KcSwitcher513.ActivateExact, KcSwitcher513.ActivateTwice, KcSwitcher513.SetThenGet, KcSwitcher513.ClearedHasNoActiveKey, KcSwitcher513.ActiveKeyMeaning, KcSwitcher513.ActivatedNode, KcSwitcher513.ClearedNode: also stated only for safe names and filters, for the same reason.
- KcSwitcher513.ClickSpares, KcSwitcher513.ClickMarksOwn, KcSwitcher513.ClickClears, KcSwitcher513.ClickExtendsMarks, KcSwitcher513.ClickAllUntouched, KcSwitcher513.ClickAllActivates, KcSwitcher513.LaterClickUnmarks: stated only when the names and the groups and keys of the clicked nodes are safe (`SafeClick`), for the same reason.
- KcSwitcher513.Switcher.GetContents, KcSwitcher513.Switcher.GetLinks: the meaning of their result is likewise stated only for safe names and filters.
- KcSwitcher513.ActivateMarks, KcSwitcher513.ClearedHasNoActiveKey: rest on the set abstraction of a node's classes. jQuery's `addClass`/`removeClass` edit the `className` string and trim it as `ClassTokens.Trim` does, so a node whose class name is `"\u00A0active"` can come out of `removeClass` carrying `active`, as `ClassTokens.RemoveCanExposeToken` shows for 0.5.1.4. That exposure, and any change to a node's other classes by such trimming, is not modelled for 0.5.1.3.
- `addClass`/`removeClass`/`hasClass` with an active class that holds several space-separated tokens: jQuery splits it, and the model treats it as one name.
- ClassTokens.RemovedHasNoActive: requires the class name's only whitespace to be plain spaces (`PlainSpacing`) and a non-empty class. For other whitespace the source's promise does not hold; `ClassTokens.RemoveCanExposeToken` gives the case.
- ClassTokens.RemovedKeepsOthers, ClassTokens.AddedKeepsOthers: require `PlainSpacing` of the class name and one-token classes (`ValidToken`) for both the active class and the other class. With other whitespace the promise fails: removing `x` from a class name `"\u00A0b"`, which lacks class `b`, trims it to `"b"`, which has it (`ClassTokens.RemoveCanExposeOther` gives the case).
- KcSwitcher514.ActivateMarks, KcSwitcher514.ActivatedElement: the "loses the class" half carries the same `PlainSpacing` condition, and so does ActivatedElement's "keeps every other class" half.
- KcSwitcher514.ActivateTwice, KcSwitcher514.ActivatedSettles: require `PlainSpacing` for the same reason.
- ClassTokens.AddedHasActive, ClassTokens.AddedIdempotent, KcSwitcher514.ActivatedElement, KcSwitcher514.ActivateMarks, KcSwitcher514.ActivateTwice, KcSwitcher514.ActivatedSettles, KcSwitcher514.ClickMarksOwn, KcSwitcher514.ClickExtendsMarks, KcSwitcher514.ClickAllActivates, KcSwitcher514.DefaultsMarkClicked: require the active class to be one token without whitespace (`ValidToken`), as a class name must be.
- `Click`, `ClickAll` and `ClickAllStep` are defined once per version: each folds that version's own `Activate` over a different page type. The collecting and selecting bookkeeping is shared in `Grouping`.
- `for ... in` order: property names that look like array indices come first in JavaScript. The model visits groups in order of first appearance.
- `fireEvent` with a `null` versus an `undefined` group: both index the property `"null"` in the model, while JavaScript reads `"undefined"` for the latter. `activateGroups`, whose missing groups are `undefined`, uses `"undefined"`.
- Handler bodies: a handler is a function of its two arguments, so a handler that changes the page or registers handlers while it runs is not modelled.
- `jQuery.inArray(name, ignored) > -1` is modelled as membership in the ignored list.
- The `nodeType` checks of `removeActiveClass`/`addActiveClass` (0.5.1.4): every page element is an element node.
- 0.5.1.3 `getContents`/`getLinks` return a jQuery object; the model returns the positions of its nodes.
