/** The event bus: handler tables keyed by event name, globally and per
    group, and `fireEvent`, which is the same code in all three versions. */
module Events {
  import opened Js
  import opened Settings

  /** What a handler returned, as far as the switcher looks at it: exactly
      `false`, or anything else. */
  datatype HandlerResult = RetFalse | RetOther

  /** A user callback, called with (group, key). Its body is not modelled:
      its answer for each argument pair is part of the input. */
  type Handler = (Option<string>, Option<string>) -> HandlerResult

  /** One entry of the per-group table `groupEventsHandlers[group]`: an
      object mapping event names to handlers, or a stored `null`. */
  datatype GroupSlot = NullSlot | Table(handlers: map<string, Handler>)

  /** `totalEventsHandlers` (event to handler) and `groupEventsHandlers`
      (group to slot). */
  datatype Handlers = Handlers(total: map<string, Handler>, groups: map<string, GroupSlot>)

  datatype Scope = Global | PerGroup

  /** One invocation of a user handler, with what it returned. */
  datatype Call = Call(event: string, scope: Scope, group: Option<string>, key: Option<string>, result: HandlerResult)

  /** The handlers one `fireEvent` invoked, in order, and its boolean answer. */
  datatype Dispatch = Dispatch(calls: seq<Call>, proceed: bool)

  /** What a switcher changes: its page of elements and the log of handler
      calls. */
  datatype World<E> = World(page: seq<E>, calls: seq<Call>)

  /** What stays fixed while it does: the names and the handler tables. */
  datatype Env = Env(names: Names, handlers: Handlers)

  /** Event names used by `beforeTabChanged` and `tabChanged`. */
  const BeforeChange: string := "beforeTabChanged"
  const AfterChange: string := "onTabChanged"

  /** `groupEventsHandlers[group]` is truthy and holds a function for `event`. */
  predicate HasGroupHandler(h: Handlers, group: Option<string>, event: string) {
    PropKey(group) in h.groups && h.groups[PropKey(group)].Table? && event in h.groups[PropKey(group)].handlers
  }

  /** `fireEvent`: the global handler first; the group handler only when the
      global one did not return exactly `false`; the answer is false exactly
      when an invoked handler returned exactly `false`. */
  function FireEvent(h: Handlers, group: Option<string>, key: Option<string>, event: string): (d: Dispatch)
    ensures |d.calls| <= 2
    ensures forall c :: c in d.calls ==> c.event == event && c.group == group && c.key == key
    ensures event in h.total <==> (|d.calls| > 0 && d.calls[0].scope == Global)
    ensures event in h.total ==> d.calls[0].result == h.total[event](group, key)
    ensures (exists c :: c in d.calls && c.scope == PerGroup) <==>
              HasGroupHandler(h, group, event) && !(event in h.total && h.total[event](group, key) == RetFalse)
    ensures forall c :: c in d.calls && c.scope == PerGroup ==>
              HasGroupHandler(h, group, event) && c.result == h.groups[PropKey(group)].handlers[event](group, key)
    ensures d.proceed <==> forall c :: c in d.calls ==> c.result != RetFalse
  {
    var globalCalls := if event in h.total then [Call(event, Global, group, key, h.total[event](group, key))] else [];
    var result := if event in h.total then h.total[event](group, key) else RetOther;
    var groupCalls :=
      if result != RetFalse && HasGroupHandler(h, group, event)
      then [Call(event, PerGroup, group, key, h.groups[PropKey(group)].handlers[event](group, key))]
      else [];
    var result' := if groupCalls != [] then groupCalls[0].result else result;
    Dispatch(globalCalls + groupCalls, result' != RetFalse)
  }

  /** The event table a group has: its object, or nothing yet (a missing or
      falsy slot). */
  function TableOf(h: Handlers, name: string): map<string, Handler> {
    if name in h.groups && h.groups[name].Table? then h.groups[name].handlers else map[]
  }

  /** `addHandler(event, group, handler)` as 0.5.1.4 and the jQuery plugin
      write it: `null` registers a global handler, a group name a handler in
      that group's table, created when it is missing. */
  function Register(h: Handlers, event: string, group: Option<string>, handler: Handler): Handlers {
    if group.None? then h.(total := h.total[event := handler])
    else h.(groups := h.groups[group.value := Table(TableOf(h, group.value)[event := handler])])
  }

  /** A later registration for the same event and scope replaces the earlier. */
  lemma RegisterReplaces(h: Handlers, event: string, group: Option<string>, f: Handler, f': Handler)
    ensures Register(Register(h, event, group, f), event, group, f') == Register(h, event, group, f')
  {
    if group.Some? {
      assert TableOf(Register(h, event, group, f), group.value)[event := f'] == TableOf(h, group.value)[event := f'];
    }
  }

  /** A registered handler is the one `fireEvent` invokes: the global one
      first, the group's one unless the global handler vetoed. */
  lemma RegisteredIsInvoked(h: Handlers, event: string, group: Option<string>, key: Option<string>, handler: Handler)
    ensures var d := FireEvent(Register(h, event, group, handler), group, key, event);
            group.None? ==> d.calls[0] == Call(event, Global, group, key, handler(group, key))
    ensures var d := FireEvent(Register(h, event, group, handler), group, key, event);
            group.Some? && !(event in h.total && h.total[event](group, key) == RetFalse) ==>
              Call(event, PerGroup, group, key, handler(group, key)) in d.calls
  {
    var h' := Register(h, event, group, handler);
    var d := FireEvent(h', group, key, event);
    if group.Some? && !(event in h.total && h.total[event](group, key) == RetFalse) {
      assert HasGroupHandler(h', group, event);
      var c :| c in d.calls && c.scope == PerGroup;
      assert c == Call(event, PerGroup, group, key, handler(group, key));
    }
  }

  /** A registration for one event leaves every other event's dispatch as it
      was. */
  lemma RegisterIsolated(h: Handlers, event: string, group: Option<string>, handler: Handler,
                         event': string, group': Option<string>, key: Option<string>)
    requires event' != event
    ensures FireEvent(Register(h, event, group, handler), group', key, event') == FireEvent(h, group', key, event')
  {
    var h' := Register(h, event, group, handler);
    assert HasGroupHandler(h', group', event') == HasGroupHandler(h, group', event');
  }

  /** `addHandler(event, group, handler)` as the standalone 0.5.1.3 file
      writes it: with a `null` group it stores `null` in the per-group table
      under the event's name and drops the handler; with a group name it
      registers like the other versions. The global table is never filled. */
  function RegisterStandalone(h: Handlers, event: string, group: Option<string>, handler: Handler): (r: Handlers)
    ensures r.total == h.total
    ensures group.None? ==> forall g, e :: PropKey(g) == event ==> !HasGroupHandler(r, g, e)
    ensures group.None? ==> forall name :: name != event ==> TableOf(r, name) == TableOf(h, name)
    ensures group.Some? ==> r == Register(h, event, group, handler)
  {
    if group.None? then h.(groups := h.groups[event := NullSlot]) else Register(h, event, group, handler)
  }

  /** Without global handlers `fireEvent` invokes at most the group's handler,
      and refuses exactly when that handler returns `false`. */
  lemma NoGlobalCalls(h: Handlers, group: Option<string>, key: Option<string>, event: string)
    requires h.total == map[]
    ensures forall c :: c in FireEvent(h, group, key, event).calls ==> c.scope == PerGroup
    ensures !FireEvent(h, group, key, event).proceed <==>
              HasGroupHandler(h, group, event) && h.groups[PropKey(group)].handlers[event](group, key) == RetFalse
  {
    var d := FireEvent(h, group, key, event);
    if HasGroupHandler(h, group, event) {
      var c :| c in d.calls && c.scope == PerGroup;
      assert d.calls == [c];
    } else {
      assert d.calls == [];
    }
  }
}
