/**
 The operations the keyboard plugin and the mouse plugin share line for
 line, each acting on the whole system through the plugin held under
 `name`: pushing the plugin's own answers, resetting it, the body of a
 key or button handler once its guard has passed, and `bindActions`.
 */
module Sources {
  import opened Seqs
  import Bindings
  import Plugins
  import opened Controller

  /** The plugin's own answer for every action, as a function of its name. */
  function AnswerOf(p: Plugins.Plugin): string -> bool {
    n => Plugins.IsActionActive(p, n)
  }

  /** The system with the plugin held under `name` replaced by `p`. */
  function WithPlugin(s: System, name: string, p: Plugins.Plugin): System {
    s.(plugins := s.plugins[name := p])
  }

  /** Replacing a held plugin by a linked one whose actions are all registered keeps the invariant. */
  lemma ValidWithPlugin(s: System, name: string, p: Plugins.Plugin)
    requires Valid(s) && name in s.plugins
    requires Bindings.Valid(p.config) && p.linked
    requires forall n :: n in p.config.bindings ==> n in s.actions
    ensures Valid(WithPlugin(s, name, p))
  {
  }

  /**
   A plugin's `updateAllActionsState()`: each action it configures is
   reported with the plugin's own answer; `PushAllActions` says what that
   leaves in the registry.
   */
  function PushAll(s: System, name: string): (r: System)
    requires Valid(s)
    ensures Valid(r) && SameButActions(r, s)
    ensures r.actions.Keys == s.actions.Keys && r.actionOrder == s.actionOrder
    ensures name !in s.plugins ==> r == s
  {
    if name !in s.plugins then s
    else
      var p := s.plugins[name];
      SetStatesValid(s, p.config.names, AnswerOf(p));
      SetStates(s, p.config.names, AnswerOf(p))
  }

  /**
   After a push every action the plugin configures stores the plugin's own
   answer, not the OR over all plugins, and the other actions are
   untouched. A notification goes out for each configured action whose
   stored state differed from that answer, in configuration order.
   */
  lemma PushAllActions(s: System, name: string)
    requires Valid(s) && name in s.plugins
    ensures
      var r := PushAll(s, name);
      var p := s.plugins[name];
      && (forall n :: n in p.config.bindings ==> r.actions[n] == Plugins.IsActionActive(p, n))
      && (forall n :: n !in p.config.bindings && n in s.actions ==> r.actions[n] == s.actions[n])
      && r.trace == s.trace + (if s.targetAttached then EdgesOf(s.actions, p.config.names, AnswerOf(p)) else [])
  {
    var p := s.plugins[name];
    SetStatesActions(s, p.config.names, AnswerOf(p));
    SetStatesTrace(s, p.config.names, AnswerOf(p));
  }

  /** When the registry already holds the plugin's answers, a push changes nothing and dispatches nothing. */
  lemma PushAllSettled(s: System, name: string)
    requires Valid(s) && name in s.plugins
    requires forall n :: n in s.plugins[name].config.bindings ==> Stored(s.actions, n) == Plugins.IsActionActive(s.plugins[name], n)
    ensures PushAll(s, name) == s
  {
    var p := s.plugins[name];
    var r := PushAll(s, name);
    PushAllActions(s, name);
    forall i | 0 <= i < |p.config.names|
      ensures Stored(s.actions, p.config.names[i]) == AnswerOf(p)(p.config.names[i])
    {
      assert p.config.names[i] in p.config.bindings;
    }
    EdgesOfSettled(s.actions, p.config.names, AnswerOf(p));
    forall n | n in s.actions
      ensures r.actions[n] == s.actions[n]
    {
      if n in p.config.bindings {
        assert Stored(s.actions, n) == Plugins.IsActionActive(p, n);
      }
    }
    assert r.actions == s.actions;
  }

  /** Pushing twice is pushing once. */
  lemma PushAllIdempotent(s: System, name: string)
    requires Valid(s)
    ensures PushAll(PushAll(s, name), name) == PushAll(s, name)
  {
    if name in s.plugins {
      PushAllActions(s, name);
      PushAllSettled(PushAll(s, name), name);
    }
  }

  /**
   A plugin's `resetAllActions()`: every action it configures is set to
   false, then its pressed set is emptied, so that it answers false for
   every action afterwards.
   */
  function ResetAll(s: System, name: string): (r: System)
    requires Valid(s)
    ensures Valid(r)
    ensures r.actions.Keys == s.actions.Keys && r.actionOrder == s.actionOrder
    ensures r.pluginOrder == s.pluginOrder && r.enabled == s.enabled
    ensures r.focused == s.focused && r.targetAttached == s.targetAttached
    ensures name !in s.plugins ==> r == s
    ensures name in s.plugins ==> r.plugins == s.plugins[name := s.plugins[name].(pressed := {})]
    ensures name in s.plugins ==> forall n :: !Plugins.IsActionActive(r.plugins[name], n)
  {
    if name !in s.plugins then s
    else
      var p := s.plugins[name];
      var s1 := SetStates(s, p.config.names, Off);
      SetStatesValid(s, p.config.names, Off);
      ValidWithPlugin(s1, name, p.(pressed := {}));
      WithPlugin(s1, name, p.(pressed := {}))
  }

  /**
   After a reset the actions the plugin configures are inactive and the
   others untouched; one `Deactivated` goes out for each configured action
   that was active, in configuration order.
   */
  lemma ResetAllActions(s: System, name: string)
    requires Valid(s) && name in s.plugins
    ensures
      var r := ResetAll(s, name);
      var c := s.plugins[name].config;
      && (forall n :: n in c.bindings ==> !r.actions[n])
      && (forall n :: n !in c.bindings && n in s.actions ==> r.actions[n] == s.actions[n])
      && r.trace == s.trace + (if s.targetAttached then EdgesOf(s.actions, c.names, Off) else [])
  {
    var c := s.plugins[name].config;
    SetStatesActions(s, c.names, Off);
    SetStatesTrace(s, c.names, Off);
  }

  /** The pressed set after `id` goes down (`down`) or up. */
  function Moved(pressed: set<int>, id: int, down: bool): (r: set<int>)
    ensures id in r <==> down
    ensures forall k :: k != id ==> (k in r <==> k in pressed)
  {
    if down then pressed + {id} else pressed - {id}
  }

  /**
   The body of a key or button handler once its guard has passed. A press
   of an id already down, or a release of one already up, changes nothing.
   Otherwise the pressed set changes, and `ToggleActions` says what happens
   to the actions.
   */
  function Toggle(s: System, name: string, id: int, down: bool): (r: System)
    requires Valid(s) && name in s.plugins
    ensures Valid(r)
    ensures r.actions.Keys == s.actions.Keys && r.actionOrder == s.actionOrder
    ensures r.pluginOrder == s.pluginOrder && r.enabled == s.enabled
    ensures r.focused == s.focused && r.targetAttached == s.targetAttached
    ensures (id in s.plugins[name].pressed) == down ==> r == s
    ensures (id in s.plugins[name].pressed) != down ==>
      r.plugins == s.plugins[name := s.plugins[name].(pressed := Moved(s.plugins[name].pressed, id, down))]
  {
    var p := s.plugins[name];
    if (id in p.pressed) == down then s
    else
      var p' := p.(pressed := Moved(p.pressed, id, down));
      var s1 := WithPlugin(s, name, p');
      ValidWithPlugin(s, name, p');
      var names := Bindings.BoundTo(p.config, id);
      SetStatesValid(s1, names, AnswerOf(p'));
      SetStates(s1, names, AnswerOf(p'))
  }

  /**
   When the press or release is not a repeat, every action bound to `id`
   is set, in configuration order, to the plugin's own new answer, and no
   other action changes; a notification goes out for each of them whose
   stored state differs from that answer.
   */
  lemma ToggleActions(s: System, name: string, id: int, down: bool)
    requires Valid(s) && name in s.plugins
    requires (id in s.plugins[name].pressed) != down
    ensures
      var r := Toggle(s, name, id, down);
      var c := s.plugins[name].config;
      && (forall n :: Bindings.Binds(c, n, id) ==> r.actions[n] == Plugins.IsActionActive(r.plugins[name], n))
      && (forall n :: !Bindings.Binds(c, n, id) && n in s.actions ==> r.actions[n] == s.actions[n])
      && r.trace == s.trace
        + (if s.targetAttached then EdgesOf(s.actions, Bindings.BoundTo(c, id), AnswerOf(r.plugins[name])) else [])
  {
    var p := s.plugins[name];
    var p' := p.(pressed := Moved(p.pressed, id, down));
    var s1 := WithPlugin(s, name, p');
    var names := Bindings.BoundTo(p.config, id);
    SetStatesActions(s1, names, AnswerOf(p'));
    SetStatesTrace(s1, names, AnswerOf(p'));
  }

  /**
   One entry of `bindActions`: the binding is assigned, the action
   registered, and, when the plugin is enabled, its answer under the new
   binding reported to the controller. No other action changes.
   */
  function BindOne(s: System, name: string, n: string, b: Bindings.Binding): (r: System)
    requires Valid(s) && name in s.plugins
    ensures Valid(r)
    ensures r.plugins == s.plugins[name := s.plugins[name].(config := Bindings.Put(s.plugins[name].config, n, b))]
    ensures r.pluginOrder == s.pluginOrder && r.enabled == s.enabled
    ensures r.focused == s.focused && r.targetAttached == s.targetAttached
    ensures r.actions == s.actions[n :=
      if s.plugins[name].enabled then Plugins.IsActionActive(r.plugins[name], n) else Stored(s.actions, n)]
    ensures r.actionOrder == if n in s.actions then s.actionOrder else s.actionOrder + [n]
  {
    var p := s.plugins[name];
    var p' := p.(config := Bindings.Put(p.config, n, b));
    var s1 := RegisterAction(s, n);
    ValidAfterActions(s, s1);
    ValidWithPlugin(s1, name, p');
    var s2 := WithPlugin(s1, name, p');
    if p.enabled then
      var v := Plugins.IsActionActive(p', n);
      var r := SetActionState(s2, n, v);
      ValidAfterActions(s2, r);
      assert n !in s.actions ==> s.actions[n := false][n := v] == s.actions[n := v] by {
        if n !in s.actions {
          UpdateTwice(s.actions, n, false, v);
        }
      }
      r
    else
      assert n in s.actions ==> s.actions[n := s.actions[n]] == s.actions by {
        if n in s.actions {
          UpdateSame(s.actions, n);
        }
      }
      s2
  }

  /**
   What one entry dispatches: when the target is attached and the plugin
   enabled, one notification if the plugin's answer under the new binding
   differs from the stored state (an unknown action counting as inactive);
   otherwise nothing.
   */
  lemma BindOneTrace(s: System, name: string, n: string, b: Bindings.Binding)
    requires Valid(s) && name in s.plugins
    ensures var r := BindOne(s, name, n, b);
      var v := Plugins.IsActionActive(r.plugins[name], n);
      r.trace == s.trace
        + (if s.targetAttached && s.plugins[name].enabled && Stored(s.actions, n) != v then [Edge(n, v)] else [])
  {
  }

  /** The entries of `d` named in `todo`, bound one after another. */
  function BindEach(s: System, name: string, d: Bindings.Config, todo: seq<string>): (r: System)
    requires Valid(s) && name in s.plugins
    requires forall n :: n in todo ==> n in d.bindings
    ensures Valid(r)
    ensures r.plugins == s.plugins[name := s.plugins[name].(config := Bindings.OverwriteEach(s.plugins[name].config, d, todo))]
    ensures r.actionOrder == AddNew(s.actionOrder, todo)
    ensures r.pluginOrder == s.pluginOrder && r.enabled == s.enabled
    ensures r.focused == s.focused && r.targetAttached == s.targetAttached
    decreases |todo|
  {
    if todo == [] then s
    else
      var p := s.plugins[name];
      var c1 := Bindings.Put(p.config, todo[0], d.bindings[todo[0]]);
      var s1 := BindOne(s, name, todo[0], d.bindings[todo[0]]);
      assert Bindings.OverwriteEach(p.config, d, todo) == Bindings.OverwriteEach(c1, d, todo[1..]);
      assert s1.plugins[name] == p.(config := c1);
      var r := BindEach(s1, name, d, todo[1..]);
      var q := p.(config := Bindings.OverwriteEach(c1, d, todo[1..]));
      assert r.plugins == s1.plugins[name := q];
      UpdateTwice(s.plugins, name, p.(config := c1), q);
      assert s1.actionOrder == if todo[0] in s.actionOrder then s.actionOrder else s.actionOrder + [todo[0]];
      r
  }

  /** What `BindEach` leaves for one action name `n`. */
  lemma {:induction false} BindEachAt(s: System, name: string, d: Bindings.Config, todo: seq<string>, n: string)
    requires Valid(s) && name in s.plugins
    requires forall m :: m in todo ==> m in d.bindings
    ensures
      var r := BindEach(s, name, d, todo);
      && (n in r.actions <==> n in s.actions || n in todo)
      && (n !in todo && n in s.actions ==> r.actions[n] == s.actions[n])
      && (n in todo ==>
            r.actions[n] == (if s.plugins[name].enabled then Plugins.IsActionActive(r.plugins[name], n) else Stored(s.actions, n)))
    decreases |todo|
  {
    if todo != [] {
      var h := todo[0];
      var s1 := BindOne(s, name, h, d.bindings[h]);
      var r := BindEach(s1, name, d, todo[1..]);
      assert BindEach(s, name, d, todo) == r;
      BindEachAt(s1, name, d, todo[1..], n);
      assert n in todo <==> n == h || n in todo[1..];
      if n == h && n !in todo[1..] {
        BindHeadKept(s, name, d, todo);
      } else if n in todo[1..] && !s.plugins[name].enabled {
        StoredAfterDisabledBind(s, name, h, d.bindings[h], n);
      }
    }
  }

  /**
   What binding distinct entries dispatches: when the target is attached
   and the plugin enabled, a notification for each entry whose answer under
   the final bindings differs from its state before the call, in entry
   order; otherwise nothing.
   */
  lemma {:induction false} BindEachTrace(s: System, name: string, d: Bindings.Config, todo: seq<string>)
    requires Valid(s) && name in s.plugins && Distinct(todo)
    requires forall n :: n in todo ==> n in d.bindings
    ensures var r := BindEach(s, name, d, todo);
      r.trace == s.trace + (if s.targetAttached && s.plugins[name].enabled
        then EdgesOf(s.actions, todo, AnswerOf(r.plugins[name])) else [])
    decreases |todo|, 1
  {
    if todo != [] {
      var h := todo[0];
      var s1 := BindOne(s, name, h, d.bindings[h]);
      var r := BindEach(s1, name, d, todo[1..]);
      assert BindEach(s, name, d, todo) == r;
      var f := AnswerOf(r.plugins[name]);
      var on := s.targetAttached && s.plugins[name].enabled;
      BindHeadTrace(s, name, d, todo);
      BindTailTrace(s, name, d, todo);
      TraceConcat(s.trace, s1.trace, r.trace,
        if Stored(s.actions, h) != f(h) then [Edge(h, f(h))] else [],
        EdgesOf(s.actions, todo[1..], f), on);
    }
  }

  /** The head's step of `BindEachTrace`: its notification already carries the final answer. */
  lemma BindHeadTrace(s: System, name: string, d: Bindings.Config, todo: seq<string>)
    requires Valid(s) && name in s.plugins && Distinct(todo) && todo != []
    requires forall n :: n in todo ==> n in d.bindings
    ensures var h := todo[0];
      var s1 := BindOne(s, name, h, d.bindings[h]);
      var f := AnswerOf(BindEach(s1, name, d, todo[1..]).plugins[name]);
      s1.trace == s.trace + (if s.targetAttached && s.plugins[name].enabled
        then (if Stored(s.actions, h) != f(h) then [Edge(h, f(h))] else []) else [])
  {
    var h := todo[0];
    var s1 := BindOne(s, name, h, d.bindings[h]);
    var r := BindEach(s1, name, d, todo[1..]);
    assert h !in todo[1..];
    Plugins.IsActionActiveLocal(s1.plugins[name], r.plugins[name], h);
    BindOneTrace(s, name, h, d.bindings[h]);
  }

  /** The tail's steps of `BindEachTrace`: the head's own step does not change what they report. */
  lemma {:induction false} BindTailTrace(s: System, name: string, d: Bindings.Config, todo: seq<string>)
    requires Valid(s) && name in s.plugins && Distinct(todo) && todo != []
    requires forall n :: n in todo ==> n in d.bindings
    ensures var h := todo[0];
      var s1 := BindOne(s, name, h, d.bindings[h]);
      var r := BindEach(s1, name, d, todo[1..]);
      r.trace == (if s.targetAttached && s.plugins[name].enabled
        then s1.trace + EdgesOf(s.actions, todo[1..], AnswerOf(r.plugins[name])) else s1.trace)
    decreases |todo|, 0
  {
    var h := todo[0];
    var s1 := BindOne(s, name, h, d.bindings[h]);
    var r := BindEach(s1, name, d, todo[1..]);
    DistinctTail(todo);
    BindEachTrace(s1, name, d, todo[1..]);
    assert h !in todo[1..];
    BindOneEdgesFrame(s, name, h, d.bindings[h], todo[1..], AnswerOf(r.plugins[name]));
  }

  /** Binding one entry does not change what later reports about other actions compare against. */
  lemma BindOneEdgesFrame(s: System, name: string, h: string, b: Bindings.Binding, names: seq<string>, f: string -> bool)
    requires Valid(s) && name in s.plugins && h !in names
    ensures EdgesOf(BindOne(s, name, h, b).actions, names, f) == EdgesOf(s.actions, names, f)
  {
    var a := BindOne(s, name, h, b).actions;
    forall i | 0 <= i < |names|
      ensures Stored(a, names[i]) == Stored(s.actions, names[i])
    {
      assert names[i] != h;
    }
    EdgesOfFrame(a, s.actions, names, f);
  }

  /** Binding on a disabled plugin changes no stored state. */
  lemma StoredAfterDisabledBind(s: System, name: string, h: string, b: Bindings.Binding, n: string)
    requires Valid(s) && name in s.plugins && !s.plugins[name].enabled
    ensures Stored(BindOne(s, name, h, b).actions, n) == Stored(s.actions, n)
  {
  }

  /** What `BindEach` leaves in the action registry. */
  lemma BindEachActions(s: System, name: string, d: Bindings.Config, todo: seq<string>)
    requires Valid(s) && name in s.plugins
    requires forall n :: n in todo ==> n in d.bindings
    ensures
      var r := BindEach(s, name, d, todo);
      && (forall n :: n in r.actions <==> n in s.actions || n in todo)
      && (forall n :: n !in todo && n in s.actions ==> r.actions[n] == s.actions[n])
      && (forall n :: n in todo ==>
            r.actions[n] == (if s.plugins[name].enabled then Plugins.IsActionActive(r.plugins[name], n) else Stored(s.actions, n)))
  {
    forall n {
      BindEachAt(s, name, d, todo, n);
    }
  }

  /** The head of `todo`, bound first and not bound again, keeps the value its own step reported. */
  lemma BindHeadKept(s: System, name: string, d: Bindings.Config, todo: seq<string>)
    requires Valid(s) && name in s.plugins
    requires todo != [] && todo[0] !in todo[1..]
    requires forall n :: n in todo ==> n in d.bindings
    ensures
      var s1 := BindOne(s, name, todo[0], d.bindings[todo[0]]);
      var r := BindEach(s1, name, d, todo[1..]);
      todo[0] in r.actions && r.actions[todo[0]] == s1.actions[todo[0]] ==>
        r.actions[todo[0]] ==
          (if s.plugins[name].enabled then Plugins.IsActionActive(r.plugins[name], todo[0]) else Stored(s.actions, todo[0]))
  {
    var s1 := BindOne(s, name, todo[0], d.bindings[todo[0]]);
    var r := BindEach(s1, name, d, todo[1..]);
    Plugins.IsActionActiveLocal(s1.plugins[name], r.plugins[name], todo[0]);
  }

  /**
   A plugin's `bindActions(d)`: every entry of `d` replaces the plugin's
   entry of the same name, is registered, and, when the plugin is enabled,
   stores the plugin's answer under the new binding; when it is disabled a
   known action keeps its state and a new one starts inactive. Actions not
   named in `d` are untouched.
   */
  function BindActions(s: System, name: string, d: Bindings.Config): (r: System)
    requires Valid(s) && Bindings.Valid(d)
    ensures Valid(r)
    ensures r.pluginOrder == s.pluginOrder && r.enabled == s.enabled
    ensures r.focused == s.focused && r.targetAttached == s.targetAttached
    ensures name !in s.plugins ==> r == s
    ensures name in s.plugins ==>
      var p := s.plugins[name];
      && r.plugins == s.plugins[name := p.(config := Bindings.Overwrite(p.config, d))]
      && (forall n :: n in r.actions <==> n in s.actions || n in d.bindings)
      && r.actionOrder == AddNew(s.actionOrder, d.names)
      && (forall n :: n !in d.bindings && n in s.actions ==> r.actions[n] == s.actions[n])
      && (forall n :: n in d.bindings ==>
            r.actions[n] == (if p.enabled then Plugins.IsActionActive(r.plugins[name], n) else Stored(s.actions, n)))
  {
    if name !in s.plugins then s
    else
      BindEachActions(s, name, d, d.names);
      BindEach(s, name, d, d.names)
  }

  /**
   What `bindActions(d)` dispatches: when the target is attached and the
   plugin enabled, a notification for each entry of `d` whose answer under
   the new bindings differs from its state before the call, in the order of
   `d`; otherwise nothing.
   */
  lemma BindActionsTrace(s: System, name: string, d: Bindings.Config)
    requires Valid(s) && Bindings.Valid(d) && name in s.plugins
    ensures var r := BindActions(s, name, d);
      r.trace == s.trace + (if s.targetAttached && s.plugins[name].enabled
        then EdgesOf(s.actions, d.names, AnswerOf(r.plugins[name])) else [])
  {
    BindEachTrace(s, name, d, d.names);
  }
}
