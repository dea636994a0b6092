/**
 The `InputController` together with the plugins it holds, as one value.
 Every transition is a pure function from system to system; the
 notifications the controller dispatches on its target are appended to
 `trace`.
 */
module Controller {
  import opened Seqs
  import Bindings
  import Plugins

  /** The two events the controller dispatches, each naming its action. */
  datatype Note = Activated(action: string) | Deactivated(action: string)

  /** The notification for a change of `n` to `active`. */
  function Edge(n: string, active: bool): (e: Note)
    ensures e.action == n && (e.Activated? <==> active)
  {
    if active then Activated(n) else Deactivated(n)
  }

  /**
   The controller and everything reachable from it.
   - `actions`, `actionOrder`: the `actions` map (name to its `active` bit) and its insertion order;
   - `plugins`, `pluginOrder`: the `plugins` map (name to plugin) and its insertion order;
   - `enabled`, `focused`: the controller's flags;
   - `targetAttached`: whether a target is attached (`target !== null`);
   - `trace`: the notifications dispatched on the target so far.
   */
  datatype System = System(
    actions: map<string, bool>,
    actionOrder: seq<string>,
    plugins: map<string, Plugins.Plugin>,
    pluginOrder: seq<string>,
    enabled: bool,
    focused: bool,
    targetAttached: bool,
    trace: seq<Note>)

  ghost predicate ValidActions(s: System) {
    Distinct(s.actionOrder) && forall n :: n in s.actionOrder <==> n in s.actions
  }

  ghost predicate ValidPlugins(s: System) {
    && Distinct(s.pluginOrder)
    && (forall k :: k in s.pluginOrder <==> k in s.plugins)
    && (forall k :: k in s.plugins ==> Bindings.Valid(s.plugins[k].config) && s.plugins[k].linked)
  }

  /** Every action some plugin configures is known to the controller. */
  ghost predicate Registered(s: System) {
    forall k, n :: k in s.plugins && n in s.plugins[k].config.bindings ==> n in s.actions
  }

  /**
   The invariant of every reachable system: the orders are the maps' key
   orders, every held plugin has a well-formed configuration and a controller
   reference, and every configured action is registered.
   */
  ghost predicate Valid(s: System) {
    ValidActions(s) && ValidPlugins(s) && Registered(s)
  }

  /** The freshly constructed controller: no actions, no plugins, enabled, focused, no target. */
  function New(): (s: System)
    ensures Valid(s)
    ensures s.actions == map[] && s.plugins == map[] && s.trace == []
    ensures s.enabled && s.focused && !s.targetAttached
  {
    System(map[], [], map[], [], true, true, false, [])
  }

  /** The stored `active` bit of `n`, false when `n` is unknown. */
  function Stored(actions: map<string, bool>, n: string): bool {
    n in actions && actions[n]
  }

  /**
   `isActionActive(n)`: the stored bit, false for an unknown name. It reads
   neither `enabled` nor `focused`.
   */
  function IsActionActive(s: System, n: string): (r: bool)
    ensures r <==> n in s.actions && s.actions[n]
  {
    Stored(s.actions, n)
  }

  /** The answer does not depend on the controller's `enabled` or `focused` flag. */
  lemma IsActionActiveUngated(s: System, n: string, e: bool, f: bool)
    ensures IsActionActive(s.(enabled := e, focused := f), n) == IsActionActive(s, n)
  {
  }

  /** `r` differs from `s` at most in its actions, their order and the trace. */
  predicate SameButActions(r: System, s: System) {
    && r.plugins == s.plugins && r.pluginOrder == s.pluginOrder
    && r.enabled == s.enabled && r.focused == s.focused && r.targetAttached == s.targetAttached
  }

  /** Changing only the actions, and only by adding to them, keeps the invariant. */
  lemma ValidAfterActions(s: System, r: System)
    requires Valid(s) && ValidActions(r) && SameButActions(r, s)
    requires forall n :: n in s.actions ==> n in r.actions
    ensures Valid(r)
  {
  }

  /** `registerAction(n)`: a new action starts inactive; a known one is left as it is. */
  function RegisterAction(s: System, n: string): (r: System)
    ensures n in r.actions
    ensures n in s.actions ==> r == s
    ensures n !in s.actions ==> !r.actions[n] && r.actionOrder == s.actionOrder + [n]
    ensures r.actions == if n in s.actions then s.actions else s.actions[n := false]
    ensures SameButActions(r, s) && r.trace == s.trace
    ensures ValidActions(s) ==> ValidActions(r)
  {
    if n in s.actions then s
    else s.(actions := s.actions[n := false], actionOrder := s.actionOrder + [n])
  }

  /** Registers every name of `names` in turn. */
  function RegisterAll(s: System, names: seq<string>): (r: System)
    ensures forall n :: n in r.actions <==> n in s.actions || n in names
    ensures forall n :: n in s.actions ==> r.actions[n] == s.actions[n]
    ensures forall n :: n in r.actions && n !in s.actions ==> !r.actions[n]
    ensures ValidActions(s) ==> r.actionOrder == AddNew(s.actionOrder, names)
    ensures SameButActions(r, s) && r.trace == s.trace
    ensures ValidActions(s) ==> ValidActions(r)
    decreases |names|
  {
    if names == [] then s
    else
      assert forall n :: n in names <==> n == names[0] || n in names[1..];
      RegisterAll(RegisterAction(s, names[0]), names[1..])
  }

  /**
   `setActionState(n, v)`, the edge detector. An unknown `n` is registered
   first. Afterwards `n` stores `v` and no other action changes. A
   notification is appended only when the stored value changed, and only
   when a target is attached to receive it.
   */
  function SetActionState(s: System, n: string, v: bool): (r: System)
    ensures r.actions == s.actions[n := v]
    ensures r.trace == s.trace + (if s.targetAttached && IsActionActive(s, n) != v then [Edge(n, v)] else [])
    ensures r.actionOrder == if n in s.actions then s.actionOrder else s.actionOrder + [n]
    ensures SameButActions(r, s)
    ensures ValidActions(s) ==> ValidActions(r)
  {
    var s1 := RegisterAction(s, n);
    if s1.actions[n] != v then
      s1.(actions := s1.actions[n := v],
          trace := if s1.targetAttached then s1.trace + [Edge(n, v)] else s1.trace)
    else s1
  }

  /** Reporting the value an action already has is silent and changes nothing. */
  lemma SetActionStateIdempotent(s: System, n: string, v: bool)
    ensures
      var s1 := SetActionState(s, n, v);
      SetActionState(s1, n, v) == s1
  {
  }

  /** Feeds the values `vs` to `setActionState(n, _)` one after another. */
  function ReportAll(s: System, n: string, vs: seq<bool>): System
    decreases |vs|
  {
    if vs == [] then s else ReportAll(SetActionState(s, n, vs[0]), n, vs[1..])
  }

  /**
   The values of `vs` at which the stream changes, starting from `prev`:
   the changes an edge detector fed `vs` should report.
   */
  function Changes(prev: bool, vs: seq<bool>): seq<bool>
    decreases |vs|
  {
    if vs == [] then []
    else if vs[0] != prev then [vs[0]] + Changes(vs[0], vs[1..])
    else Changes(prev, vs[1..])
  }

  /** The notifications for the successive values `vs` of action `n`. */
  function Edges(n: string, vs: seq<bool>): seq<Note>
    decreases |vs|
  {
    if vs == [] then [] else [Edge(n, vs[0])] + Edges(n, vs[1..])
  }

  lemma TraceConcat(t0: seq<Note>, t1: seq<Note>, t2: seq<Note>, head: seq<Note>, rest: seq<Note>, attached: bool)
    requires t1 == t0 + (if attached then head else [])
    requires t2 == (if attached then t1 + rest else t1)
    ensures t2 == t0 + (if attached then head + rest else [])
  {
    if attached {
      assert (t0 + head) + rest == t0 + (head + rest);
    }
  }

  lemma ChangesStep(n: string, prev: bool, vs: seq<bool>)
    requires vs != []
    ensures Edges(n, Changes(prev, vs))
      == (if vs[0] != prev then [Edge(n, vs[0])] else []) + Edges(n, Changes(vs[0], vs[1..]))
  {
    var c := Changes(vs[0], vs[1..]);
    if vs[0] != prev {
      assert Changes(prev, vs) == [vs[0]] + c;
      assert ([vs[0]] + c)[1..] == c;
    }
  }

  /**
   Edge triggering over any stream of reports: with a target attached, the
   trace grows by exactly one notification per change of value, never one per
   report; the action ends at the last value reported.
   */
  lemma {:induction false} ReportAllNotifiesChanges(s: System, n: string, vs: seq<bool>)
    requires s.targetAttached
    ensures ReportAll(s, n, vs).trace == s.trace + Edges(n, Changes(IsActionActive(s, n), vs))
    ensures vs != [] ==> IsActionActive(ReportAll(s, n, vs), n) == vs[|vs| - 1]
    ensures vs == [] ==> ReportAll(s, n, vs) == s
    decreases |vs|
  {
    if vs != [] {
      var prev := IsActionActive(s, n);
      var s1 := SetActionState(s, n, vs[0]);
      var r := ReportAll(s1, n, vs[1..]);
      assert ReportAll(s, n, vs) == r;
      ReportAllNotifiesChanges(s1, n, vs[1..]);
      var head := if vs[0] != prev then [Edge(n, vs[0])] else [];
      var tail := Edges(n, Changes(vs[0], vs[1..]));
      ChangesStep(n, prev, vs);
      TraceConcat(s.trace, s1.trace, r.trace, head, tail, true);
      if vs[1..] != [] {
        assert vs[1..][|vs[1..]| - 1] == vs[|vs| - 1];
      }
    }
  }

  /**
   The notifications a run of `setActionState(m, value(m))` over the
   distinct names `names` produces from `actions`: one per name whose stored
   value differs from the reported one, in order.
   */
  function EdgesOf(actions: map<string, bool>, names: seq<string>, value: string -> bool): seq<Note>
    decreases |names|
  {
    if names == [] then []
    else
      (if Stored(actions, names[0]) != value(names[0]) then [Edge(names[0], value(names[0]))] else [])
      + EdgesOf(actions, names[1..], value)
  }

  lemma {:induction false} EdgesOfFrame(a1: map<string, bool>, a2: map<string, bool>, names: seq<string>, value: string -> bool)
    requires forall i :: 0 <= i < |names| ==> Stored(a1, names[i]) == Stored(a2, names[i])
    ensures EdgesOf(a1, names, value) == EdgesOf(a2, names, value)
    decreases |names|
  {
    if names != [] {
      EdgesOfFrame(a1, a2, names[1..], value);
    }
  }

  /** A name whose stored value differs from its reported one gets its notification. */
  lemma {:induction false} EdgesOfHas(actions: map<string, bool>, names: seq<string>, value: string -> bool, n: string)
    requires n in names && Stored(actions, n) != value(n)
    ensures Edge(n, value(n)) in EdgesOf(actions, names, value)
    decreases |names|
  {
    if names[0] != n {
      assert n in names[1..];
      EdgesOfHas(actions, names[1..], value, n);
    }
  }

  /** `setActionState(m, value(m))` for each `m` of `names`, in order. */
  function SetStates(s: System, names: seq<string>, value: string -> bool): (r: System)
    ensures SameButActions(r, s)
    decreases |names|
  {
    if names == [] then s
    else SetStates(SetActionState(s, names[0], value(names[0])), names[1..], value)
  }

  /**
   After `SetStates` every named action holds its value and all other
   actions are untouched; names already registered keep the order as it is,
   and the registry invariant is kept.
   */
  lemma {:induction false} SetStatesActions(s: System, names: seq<string>, value: string -> bool)
    ensures var r := SetStates(s, names, value);
      && (forall n :: n in names ==> n in r.actions && r.actions[n] == value(n))
      && (forall n :: n !in names ==> (n in r.actions <==> n in s.actions))
      && (forall n :: n !in names && n in s.actions ==> r.actions[n] == s.actions[n])
      && ((forall n :: n in names ==> n in s.actions) ==> r.actionOrder == s.actionOrder)
      && (ValidActions(s) ==> ValidActions(r))
    decreases |names|
  {
    if names != [] {
      var n := names[0];
      assert forall m :: m in names <==> m == n || m in names[1..];
      SetStatesActions(SetActionState(s, n, value(n)), names[1..], value);
    }
  }

  /** `SetStates` keeps the invariant, and over registered names it keeps the registry's keys and order. */
  lemma SetStatesValid(s: System, names: seq<string>, value: string -> bool)
    requires Valid(s)
    ensures var r := SetStates(s, names, value);
      && Valid(r)
      && ((forall n :: n in names ==> n in s.actions) ==> r.actions.Keys == s.actions.Keys && r.actionOrder == s.actionOrder)
  {
    var r := SetStates(s, names, value);
    SetStatesActions(s, names, value);
    ValidAfterActions(s, r);
  }

  /** Setting an action outside `names` does not change what `EdgesOf` predicts for them. */
  lemma EdgesOfAfterSet(s: System, n: string, v: bool, names: seq<string>, value: string -> bool)
    requires n !in names
    ensures EdgesOf(SetActionState(s, n, v).actions, names, value) == EdgesOf(s.actions, names, value)
  {
    EdgesOfFrame(SetActionState(s, n, v).actions, s.actions, names, value);
  }

  /** One step of `SetStates` and of `EdgesOf`. */
  lemma SetStatesStep(s: System, names: seq<string>, value: string -> bool)
    requires names != []
    ensures
      var n := names[0];
      && SetStates(s, names, value) == SetStates(SetActionState(s, n, value(n)), names[1..], value)
      && EdgesOf(s.actions, names, value)
         == (if Stored(s.actions, n) != value(n) then [Edge(n, value(n))] else []) + EdgesOf(s.actions, names[1..], value)
  {
  }

  /**
   For distinct names the trace grows by exactly the notifications `EdgesOf`
   predicts from the starting state, and only with a target attached.
   */
  lemma {:induction false} SetStatesTrace(s: System, names: seq<string>, value: string -> bool)
    requires Distinct(names)
    ensures SetStates(s, names, value).trace
      == s.trace + (if s.targetAttached then EdgesOf(s.actions, names, value) else [])
    decreases |names|
  {
    if names != [] {
      var n := names[0];
      var s1 := SetActionState(s, n, value(n));
      var r := SetStates(s1, names[1..], value);
      var head := if Stored(s.actions, n) != value(n) then [Edge(n, value(n))] else [];
      var rest := EdgesOf(s.actions, names[1..], value);
      SetStatesStep(s, names, value);
      DistinctTail(names);
      SetStatesTrace(s1, names[1..], value);
      EdgesOfAfterSet(s, n, value(n), names[1..], value);
      TraceConcat(s.trace, s1.trace, r.trace, head, rest, s.targetAttached);
    }
  }

  /**
   `isActionActiveAuto(n)`: asks the plugins in insertion order and answers
   true at the first that reports `n` active.
   */
  function AnyActive(plugins: map<string, Plugins.Plugin>, order: seq<string>, n: string): (r: bool)
    ensures r <==> exists i :: 0 <= i < |order| && order[i] in plugins && Plugins.IsActionActive(plugins[order[i]], n)
    decreases |order|
  {
    if order == [] then false
    else if order[0] in plugins && Plugins.IsActionActive(plugins[order[0]], n) then true
    else
      assert forall i :: 1 <= i < |order| ==> order[i] == order[1..][i - 1];
      AnyActive(plugins, order[1..], n)
  }

  /** The OR over all held plugins of their `isActionActive(n)`. */
  function IsActionActiveAuto(s: System, n: string): (r: bool)
    ensures ValidPlugins(s) ==> (r <==> exists k :: k in s.plugins && Plugins.IsActionActive(s.plugins[k], n))
  {
    var r := AnyActive(s.plugins, s.pluginOrder, n);
    assert ValidPlugins(s) ==> forall k :: k in s.plugins ==> exists i :: 0 <= i < |s.pluginOrder| && s.pluginOrder[i] == k;
    r
  }

  /** When the plugin under `name` answers false for `n`, the OR over the plugins is the OR over the others. */
  lemma OthersDecide(s: System, r: System, name: string, q: Plugins.Plugin, n: string)
    requires ValidPlugins(r) && r.plugins == s.plugins[name := q]
    requires !Plugins.IsActionActive(q, n)
    ensures IsActionActiveAuto(r, n) <==> exists k :: k in s.plugins && k != name && Plugins.IsActionActive(s.plugins[k], n)
  {
    if IsActionActiveAuto(r, n) {
      var k :| k in r.plugins && Plugins.IsActionActive(r.plugins[k], n);
      assert k != name && s.plugins[k] == r.plugins[k];
    }
    if exists k :: k in s.plugins && k != name && Plugins.IsActionActive(s.plugins[k], n) {
      var k :| k in s.plugins && k != name && Plugins.IsActionActive(s.plugins[k], n);
      assert k in r.plugins && r.plugins[k] == s.plugins[k];
    }
  }

  /** Some held plugin configures `n`. */
  ghost predicate Configured(s: System, n: string) {
    exists k :: k in s.plugins && n in s.plugins[k].config.bindings
  }

  /** Giving one plugin a configuration that does not name `n` leaves `n` unconfigured if it was. */
  lemma UnconfiguredAfterConfig(plugins: map<string, Plugins.Plugin>, name: string, c: Bindings.Config, s: System, n: string)
    requires name in s.plugins && plugins == s.plugins[name := s.plugins[name].(config := c)]
    requires !Configured(s, n) && n !in c.bindings
    ensures forall k :: k in plugins ==> n !in plugins[k].config.bindings
  {
  }

  /** The stored state of every configured action is the OR of the plugins' answers. */
  ghost predicate Consistent(s: System) {
    forall n :: Configured(s, n) ==> IsActionActive(s, n) == IsActionActiveAuto(s, n)
  }

  /** The names configured by the plugins of `order`, added after `acc` as a `Set` collects them. */
  function Collect(plugins: map<string, Plugins.Plugin>, order: seq<string>, acc: seq<string>): (r: seq<string>)
    ensures Distinct(acc) ==> Distinct(r)
    ensures forall n :: n in r <==>
      n in acc || exists i :: 0 <= i < |order| && order[i] in plugins && n in plugins[order[i]].config.names
    decreases |order|
  {
    if order == [] then acc
    else
      var acc' := if order[0] in plugins then AddNew(acc, plugins[order[0]].config.names) else acc;
      assert forall i :: 1 <= i < |order| ==> order[i] == order[1..][i - 1];
      Collect(plugins, order[1..], acc')
  }

  /** The configured action names, once each, in first-seen order. */
  function ConfiguredNames(s: System): (r: seq<string>)
    ensures Distinct(r)
    ensures ValidPlugins(s) ==> forall n :: n in r <==> Configured(s, n)
  {
    var r := Collect(s.plugins, s.pluginOrder, []);
    assert ValidPlugins(s) ==> forall n :: n in r <==> Configured(s, n) by {
      if ValidPlugins(s) {
        forall n
          ensures n in r <==> Configured(s, n)
        {
          CollectedIffConfigured(s, n);
        }
      }
    }
    r
  }

  lemma CollectedIffConfigured(s: System, n: string)
    requires ValidPlugins(s)
    ensures n in Collect(s.plugins, s.pluginOrder, []) <==> Configured(s, n)
  {
    if Configured(s, n) {
      var k :| k in s.plugins && n in s.plugins[k].config.bindings;
      var i :| 0 <= i < |s.pluginOrder| && s.pluginOrder[i] == k;
      assert n in s.plugins[s.pluginOrder[i]].config.names;
    }
    if n in Collect(s.plugins, s.pluginOrder, []) {
      var i :| 0 <= i < |s.pluginOrder| && s.pluginOrder[i] in s.plugins && n in s.plugins[s.pluginOrder[i]].config.names;
      assert n in s.plugins[s.pluginOrder[i]].config.bindings;
    }
  }

  /** The OR over the plugins of `order`, as a function of the action name. */
  function OrOver(plugins: map<string, Plugins.Plugin>, order: seq<string>): string -> bool {
    n => AnyActive(plugins, order, n)
  }

  /** The recomputed value of every action in `s`, as a function of its name; it reads only the plugins. */
  function AutoOf(s: System): (f: string -> bool)
    ensures forall n :: f(n) == IsActionActiveAuto(s, n)
  {
    OrOver(s.plugins, s.pluginOrder)
  }

  /**
   `updateAllActionsState()`: every configured action is set to the OR of
   the plugins' answers; actions no plugin configures are untouched. A
   notification goes out for exactly the configured actions whose stored
   state changed, in first-configured order.
   */
  function UpdateAll(s: System): (r: System)
    requires Valid(s)
    ensures r.actions.Keys == s.actions.Keys && r.actionOrder == s.actionOrder
    ensures SameButActions(r, s)
    ensures Valid(r) && Consistent(r)
    ensures forall n :: Configured(s, n) ==> r.actions[n] == IsActionActiveAuto(s, n)
    ensures forall n :: !Configured(s, n) && n in s.actions ==> r.actions[n] == s.actions[n]
    ensures r.trace == s.trace
      + (if s.targetAttached then EdgesOf(s.actions, ConfiguredNames(s), AutoOf(s)) else [])
  {
    var names := ConfiguredNames(s);
    var r := SetStates(s, names, AutoOf(s));
    SetStatesActions(s, names, AutoOf(s));
    SetStatesValid(s, names, AutoOf(s));
    SetStatesTrace(s, names, AutoOf(s));
    r
  }

  /** A recompute that follows changes which already dispatched `head` appends its own notifications after them. */
  lemma UpdateAllAfter(t: seq<Note>, s: System, head: seq<Note>)
    requires Valid(s) && s.trace == t + (if s.targetAttached then head else [])
    ensures UpdateAll(s).trace == t
      + (if s.targetAttached then head + EdgesOf(s.actions, ConfiguredNames(s), AutoOf(s)) else [])
  {
    TraceConcat(t, s.trace, UpdateAll(s).trace, head, EdgesOf(s.actions, ConfiguredNames(s), AutoOf(s)), s.targetAttached);
  }

  /** A run of reports that all match the stored values produces no notification. */
  lemma {:induction false} EdgesOfSettled(actions: map<string, bool>, names: seq<string>, value: string -> bool)
    requires forall i :: 0 <= i < |names| ==> Stored(actions, names[i]) == value(names[i])
    ensures EdgesOf(actions, names, value) == []
    decreases |names|
  {
    if names != [] {
      EdgesOfSettled(actions, names[1..], value);
    }
  }

  lemma UpdateAllSettledActions(s: System)
    requires Valid(s) && Consistent(s)
    ensures UpdateAll(s).actions == s.actions
  {
    var r := UpdateAll(s);
    assert r.actions.Keys == s.actions.Keys;
    forall n | n in s.actions
      ensures r.actions[n] == s.actions[n]
    {
      SettledAt(s, n);
    }
  }

  lemma SettledAt(s: System, n: string)
    requires Valid(s) && Consistent(s) && n in s.actions
    ensures UpdateAll(s).actions[n] == s.actions[n]
  {
    if Configured(s, n) {
      assert IsActionActive(s, n) == IsActionActiveAuto(s, n);
    }
  }

  lemma UpdateAllSettledTrace(s: System)
    requires Valid(s) && Consistent(s)
    ensures UpdateAll(s).trace == s.trace
  {
    var names := ConfiguredNames(s);
    forall i | 0 <= i < |names|
      ensures Stored(s.actions, names[i]) == AutoOf(s)(names[i])
    {
      assert Configured(s, names[i]);
    }
    EdgesOfSettled(s.actions, names, AutoOf(s));
  }

  /** A consistent system is a fixed point of the recompute: nothing changes and nothing is dispatched. */
  lemma UpdateAllSettled(s: System)
    requires Valid(s) && Consistent(s)
    ensures UpdateAll(s) == s
  {
    UpdateAllSettledActions(s);
    UpdateAllSettledTrace(s);
  }

  /** Recomputing twice is recomputing once: the second pass changes nothing and dispatches nothing. */
  lemma UpdateAllIdempotent(s: System)
    requires Valid(s)
    ensures UpdateAll(UpdateAll(s)) == UpdateAll(s)
  {
    UpdateAllSettled(UpdateAll(s));
  }

  /** `handleFocus()`: focused again, and every configured action recomputed from the pressed sets. */
  function HandleFocus(s: System): (r: System)
    requires Valid(s)
    ensures Valid(r) && Consistent(r) && r.focused
    ensures r.actionOrder == s.actionOrder && r.pluginOrder == s.pluginOrder
    ensures r.plugins == s.plugins && r.enabled == s.enabled && r.targetAttached == s.targetAttached
    ensures r.actions.Keys == s.actions.Keys
    ensures forall n :: !Configured(s, n) && n in s.actions ==> r.actions[n] == s.actions[n]
    ensures r.trace == s.trace + (if s.targetAttached then EdgesOf(s.actions, ConfiguredNames(s), AutoOf(s)) else [])
  {
    UpdateAll(s.(focused := true))
  }

  /** The stored names that are active, in insertion order. */
  function ActiveNames(s: System): (r: seq<string>)
    ensures forall n :: n in r <==> n in s.actionOrder && Stored(s.actions, n)
    ensures ValidActions(s) ==> Distinct(r)
  {
    Select(s.actionOrder, n => Stored(s.actions, n))
  }

  /** The value every action is forced to on blur. */
  function Off(n: string): bool {
    false
  }

  /** One `Deactivated` per name, in order. */
  function Deactivations(names: seq<string>): (r: seq<Note>)
    ensures |r| == |names|
    ensures forall i :: 0 <= i < |names| ==> r[i] == Deactivated(names[i])
    decreases |names|
  {
    if names == [] then [] else [Deactivated(names[0])] + Deactivations(names[1..])
  }

  lemma {:induction false} EdgesOfDeactivate(actions: map<string, bool>, names: seq<string>)
    requires forall i :: 0 <= i < |names| ==> Stored(actions, names[i])
    ensures EdgesOf(actions, names, Off) == Deactivations(names)
    decreases |names|
  {
    if names != [] {
      EdgesOfDeactivate(actions, names[1..]);
    }
  }

  /**
   `handleBlur()`: unfocused, and every active action is deactivated. With a
   target attached, the trace grows by one `Deactivated` per action that was
   active, in insertion order. Pressed sets are kept.
   */
  function HandleBlur(s: System): (r: System)
    requires Valid(s)
    ensures r.actions.Keys == s.actions.Keys && forall n :: n in r.actions ==> !r.actions[n]
    ensures Valid(r) && !r.focused
    ensures r.actionOrder == s.actionOrder && r.pluginOrder == s.pluginOrder
    ensures r.plugins == s.plugins && r.enabled == s.enabled && r.targetAttached == s.targetAttached
    ensures r.trace == s.trace + (if s.targetAttached then Deactivations(ActiveNames(s)) else [])
  {
    var s1 := s.(focused := false);
    var names := ActiveNames(s);
    var r := SetStates(s1, names, Off);
    SetStatesActions(s1, names, Off);
    SetStatesValid(s1, names, Off);
    SetStatesTrace(s1, names, Off);
    EdgesOfDeactivate(s1.actions, names);
    r
  }

  /** The notes of `Deactivations(names)` are all deactivations and name exactly `names`, each once if `names` is distinct. */
  lemma DeactivationsNames(names: seq<string>)
    requires Distinct(names)
    ensures
      var r := Deactivations(names);
      && (forall i :: 0 <= i < |r| ==> r[i].Deactivated?)
      && (forall i, j :: 0 <= i < j < |r| ==> r[i].action != r[j].action)
      && (forall n :: (exists i :: 0 <= i < |r| && r[i].action == n) <==> n in names)
  {
    var r := Deactivations(names);
    forall n | n in names
      ensures exists i :: 0 <= i < |r| && r[i].action == n
    {
      var i :| 0 <= i < |names| && names[i] == n;
      assert r[i].action == n;
    }
  }

  /**
   Blurring emits one `Deactivated` per previously active action: the names
   it carries are exactly the active set, each once.
   */
  lemma BlurDeactivatesEachActiveOnce(s: System)
    requires Valid(s) && s.targetAttached
    ensures
      var added := HandleBlur(s).trace[|s.trace|..];
      && (forall i :: 0 <= i < |added| ==> added[i].Deactivated?)
      && (forall i, j :: 0 <= i < j < |added| ==> added[i].action != added[j].action)
      && (forall n :: (exists i :: 0 <= i < |added| && added[i].action == n) <==> IsActionActive(s, n))
  {
    var a := ActiveNames(s);
    assert HandleBlur(s).trace[|s.trace|..] == Deactivations(a);
    DeactivationsNames(a);
  }

  /** Setting the controller's `enabled` field: a plain field, nothing else happens. */
  function SetEnabled(s: System, v: bool): (r: System)
    ensures r.enabled == v
    ensures r.(enabled := s.enabled) == s
  {
    s.(enabled := v)
  }

  /** `attach(target)`: the target is recorded and every configured action recomputed. */
  function Attach(s: System): (r: System)
    requires Valid(s)
    ensures Valid(r) && Consistent(r) && r.targetAttached
    ensures r.actionOrder == s.actionOrder && r.pluginOrder == s.pluginOrder
    ensures r.plugins == s.plugins && r.enabled == s.enabled && r.focused == s.focused
    ensures r.actions.Keys == s.actions.Keys
    ensures forall n :: !Configured(s, n) && n in s.actions ==> r.actions[n] == s.actions[n]
    ensures r.trace == s.trace + EdgesOf(s.actions, ConfiguredNames(s), AutoOf(s))
  {
    UpdateAll(s.(targetAttached := true))
  }

  /** `detach()`: the target is dropped; states and pressed sets are kept. */
  function Detach(s: System): (r: System)
    ensures !r.targetAttached
    ensures r.(targetAttached := s.targetAttached) == s
  {
    if s.targetAttached then s.(targetAttached := false) else s
  }

  /**
   `addPlugin(name, plugin)`: a taken name leaves the system unchanged.
   Otherwise the plugin is initialised and appended, its configured actions
   registered, and every configured action recomputed.
   */
  function AddPlugin(s: System, name: string, p: Plugins.Plugin): (r: System)
    requires Valid(s) && Bindings.Valid(p.config)
    ensures Valid(r)
    ensures name in s.plugins ==> r == s
    ensures name !in s.plugins ==>
      && Consistent(r)
      && r.plugins == s.plugins[name := Plugins.Init(p)]
      && r.pluginOrder == s.pluginOrder + [name]
      && (forall n :: n in r.actions <==> n in s.actions || n in p.config.bindings)
      && r.actionOrder == AddNew(s.actionOrder, p.config.names)
      && (forall n :: !Configured(r, n) && n in s.actions ==> r.actions[n] == s.actions[n])
      && r.trace == s.trace + (if s.targetAttached then EdgesOf(s.actions, ConfiguredNames(r), AutoOf(r)) else [])
      && r.enabled == s.enabled && r.focused == s.focused && r.targetAttached == s.targetAttached
  {
    if name in s.plugins then s
    else
      var p1 := Plugins.Init(p);
      var s1 := s.(plugins := s.plugins[name := p1], pluginOrder := s.pluginOrder + [name]);
      // `init` registers the configured actions, and `addPlugin` registers them again.
      var s2 := RegisterAll(s1, p.config.names);
      var s3 := RegisterAll(s2, p.config.names);
      assert Valid(s3);
      assert s3.actionOrder == AddNew(s.actionOrder, p.config.names) by {
        AddNewTwice(s.actionOrder, p.config.names);
      }
      forall i | 0 <= i < |ConfiguredNames(s3)|
        ensures Stored(s3.actions, ConfiguredNames(s3)[i]) == Stored(s.actions, ConfiguredNames(s3)[i])
      {
      }
      EdgesOfFrame(s3.actions, s.actions, ConfiguredNames(s3), AutoOf(s3));
      UpdateAll(s3)
  }

  /**
   `removePlugin(name)`: an unknown name leaves the system unchanged.
   Otherwise the plugin is dropped and every action still configured by
   another plugin recomputed; an action only the removed plugin configured
   keeps its stored state.
   */
  function RemovePlugin(s: System, name: string): (r: System)
    requires Valid(s)
    ensures Valid(r)
    ensures name !in s.plugins ==> r == s
    ensures name in s.plugins ==>
      && Consistent(r)
      && r.plugins == s.plugins - {name}
      && r.pluginOrder == Select(s.pluginOrder, k => k != name)
      && r.actions.Keys == s.actions.Keys && r.actionOrder == s.actionOrder
      && (forall n :: !Configured(r, n) && n in s.actions ==> r.actions[n] == s.actions[n])
      && r.trace == s.trace + (if s.targetAttached then EdgesOf(s.actions, ConfiguredNames(r), AutoOf(r)) else [])
      && r.enabled == s.enabled && r.focused == s.focused && r.targetAttached == s.targetAttached
  {
    if name !in s.plugins then s
    else
      var order := Select(s.pluginOrder, k => k != name);
      var s1 := s.(plugins := s.plugins - {name}, pluginOrder := order);
      assert Valid(s1);
      UpdateAll(s1)
  }

  /**
   `destroy()`: the target is detached, the plugins destroyed and dropped,
   and the action registry emptied. Nothing is dispatched.
   */
  function Destroy(s: System): (r: System)
    ensures Valid(r)
    ensures r.actions == map[] && r.plugins == map[] && !r.targetAttached
    ensures r.trace == s.trace && r.enabled == s.enabled && r.focused == s.focused
  {
    var s1 := Detach(s);
    s1.(plugins := map[], pluginOrder := [], actions := map[], actionOrder := [])
  }
}
