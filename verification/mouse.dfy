/**
 The mouse plugin's button handlers, its `enabled` setter, its
 `bindActions`, the context-menu switch and the button names, acting on
 the whole system through the mouse plugin held under `name`. Unlike the
 keyboard plugin it asks the controller to recompute every action
 (`notifyController`) after each change, and its handlers do not look at
 the controller's focus.
 */
module Mouse {
  import opened Seqs
  import Bindings
  import Plugins
  import opened Controller
  import Sources
  import Decimal

  /** A `MouseEvent.button` value: a signed 16-bit integer. */
  newtype Short = x: int | -0x8000 <= x < 0x8000

  /** `name` holds a mouse plugin. */
  predicate IsMouse(s: System, name: string) {
    name in s.plugins && s.plugins[name].kind == Plugins.Mouse
  }

  /**
   The guard of both button handlers: the plugin is enabled and holds its
   controller, and that controller is enabled. Focus is not required.
   */
  predicate Handles(s: System, name: string) {
    && IsMouse(s, name)
    && s.plugins[name].enabled && s.plugins[name].linked
    && s.enabled
  }

  /**
   `handleMouseDown`: outside the guard, or for a button already down,
   nothing happens. Otherwise the button goes down, the actions bound to it
   are reported with the plugin's own answers, and the controller
   recomputes every configured action.
   */
  function MouseDown(s: System, name: string, button: int): (r: System)
    requires Valid(s)
    ensures Valid(r)
    ensures r.enabled == s.enabled && r.focused == s.focused && r.targetAttached == s.targetAttached
    ensures r.actionOrder == s.actionOrder && r.pluginOrder == s.pluginOrder
    ensures !Handles(s, name) || button in s.plugins[name].pressed ==> r == s
    ensures Handles(s, name) && button !in s.plugins[name].pressed ==>
      && Consistent(r)
      && r.plugins == s.plugins[name := s.plugins[name].(pressed := s.plugins[name].pressed + {button})]
    ensures r.actions.Keys == s.actions.Keys
  {
    if !Handles(s, name) || button in s.plugins[name].pressed then s
    else
      UpdateAll(Sources.Toggle(s, name, button, true))
  }

  /**
   After a handled press of a button not yet down, every action bound to
   it whose binding is on is active, and every configured action stores
   the OR of all plugins' answers.
   */
  lemma MouseDownActivates(s: System, name: string, button: int)
    requires Valid(s) && Handles(s, name) && button !in s.plugins[name].pressed
    ensures
      var r := MouseDown(s, name, button);
      var c := s.plugins[name].config;
      && (forall n :: Bindings.Binds(c, n, button) && Bindings.SwitchedOn(c.bindings[n]) ==> r.actions[n])
      && (forall n :: Configured(r, n) ==> r.actions[n] == IsActionActiveAuto(r, n))
  {
    var r := MouseDown(s, name, button);
    var c := s.plugins[name].config;
    forall n | Bindings.Binds(c, n, button) && Bindings.SwitchedOn(c.bindings[n])
      ensures r.actions[n]
    {
      assert button in Bindings.Normalize(c.bindings[n].ids) && button in r.plugins[name].pressed;
      assert Plugins.IsActionActive(r.plugins[name], n);
      assert Configured(r, n);
    }
  }

  /**
   `handleMouseUp`: outside the guard, or for a button not down, nothing
   happens. Otherwise the button goes up, the actions bound to it are
   reported with the plugin's own answers, and the controller recomputes
   every configured action.
   */
  function MouseUp(s: System, name: string, button: int): (r: System)
    requires Valid(s)
    ensures Valid(r)
    ensures r.enabled == s.enabled && r.focused == s.focused && r.targetAttached == s.targetAttached
    ensures r.actionOrder == s.actionOrder && r.pluginOrder == s.pluginOrder
    ensures !Handles(s, name) || button !in s.plugins[name].pressed ==> r == s
    ensures Handles(s, name) && button in s.plugins[name].pressed ==>
      && Consistent(r)
      && r.plugins == s.plugins[name := s.plugins[name].(pressed := s.plugins[name].pressed - {button})]
    ensures r.actions.Keys == s.actions.Keys
  {
    if !Handles(s, name) || button !in s.plugins[name].pressed then s
    else
      UpdateAll(Sources.Toggle(s, name, button, false))
  }

  /** A handled press or release leaves every action no plugin configures as it was. */
  lemma ButtonFrame(s: System, name: string, button: int, down: bool)
    requires Valid(s) && Handles(s, name) && (button in s.plugins[name].pressed) != down
    ensures
      var r := if down then MouseDown(s, name, button) else MouseUp(s, name, button);
      forall n :: !Configured(s, n) && n in s.actions ==> r.actions[n] == s.actions[n]
  {
    forall n | !Configured(s, n) && n in s.actions {
      UnconfiguredKept(s, name, button, down, n);
    }
  }

  lemma UnconfiguredKept(s: System, name: string, button: int, down: bool, n: string)
    requires Valid(s) && name in s.plugins && (button in s.plugins[name].pressed) != down
    requires !Configured(s, n) && n in s.actions
    ensures UpdateAll(Sources.Toggle(s, name, button, down)).actions[n] == s.actions[n]
  {
    var s1 := Sources.Toggle(s, name, button, down);
    Sources.ToggleActions(s, name, button, down);
    assert !Bindings.Binds(s.plugins[name].config, n, button);
    assert !Configured(s1, n);
  }

  /**
   What a handled press or release dispatches: first the plugin's own
   answers for the actions bound to the button, in configuration order,
   then the changes of the recompute that `notifyController` triggers.
   */
  lemma ButtonTrace(s: System, name: string, button: int, down: bool)
    requires Valid(s) && Handles(s, name) && (button in s.plugins[name].pressed) != down
    ensures
      var s1 := Sources.Toggle(s, name, button, down);
      var r := if down then MouseDown(s, name, button) else MouseUp(s, name, button);
      r.trace == s.trace + (if s.targetAttached then
        EdgesOf(s.actions, Bindings.BoundTo(s.plugins[name].config, button), Sources.AnswerOf(r.plugins[name]))
        + EdgesOf(s1.actions, ConfiguredNames(r), AutoOf(r))
        else [])
  {
    var c := s.plugins[name].config;
    var s1 := Sources.Toggle(s, name, button, down);
    var r := UpdateAll(s1);
    Sources.ToggleActions(s, name, button, down);
    assert r.plugins == s1.plugins && r.pluginOrder == s1.pluginOrder;
    assert ConfiguredNames(r) == ConfiguredNames(s1) && AutoOf(r) == AutoOf(s1);
    TraceConcat(s.trace, s1.trace, r.trace,
      EdgesOf(s.actions, Bindings.BoundTo(c, button), Sources.AnswerOf(r.plugins[name])),
      EdgesOf(s1.actions, ConfiguredNames(r), AutoOf(r)), s.targetAttached);
  }

  /**
   A handled click, press then release of a button that was up, restores
   the plugins, and leaves every configured action at the OR of the
   plugins' answers from before the click.
   */
  lemma ClickRestores(s: System, name: string, button: int)
    requires Valid(s) && Handles(s, name) && button !in s.plugins[name].pressed
    ensures
      var r := MouseUp(MouseDown(s, name, button), name, button);
      && r.plugins == s.plugins
      && forall n :: Configured(s, n) ==> r.actions[n] == IsActionActiveAuto(s, n)
  {
    var p := s.plugins[name];
    var s1 := MouseDown(s, name, button);
    var r := MouseUp(s1, name, button);
    assert p.pressed + {button} - {button} == p.pressed;
    UpdateTwice(s.plugins, name, p.(pressed := p.pressed + {button}), p);
    UpdateSame(s.plugins, name);
    assert r.plugins == s.plugins;
    forall n | Configured(s, n)
      ensures r.actions[n] == IsActionActiveAuto(s, n)
    {
      assert Configured(r, n);
      assert IsActionActiveAuto(r, n) == IsActionActiveAuto(s, n);
    }
  }

  /**
   The `enabled` setter: like the keyboard plugin's, enabling pushes the
   plugin's answers and disabling resets its actions and pressed set; then
   the controller recomputes every configured action.
   */
  function SetEnabled(s: System, name: string, v: bool): (r: System)
    requires Valid(s)
    ensures Valid(r)
    ensures r.enabled == s.enabled && r.focused == s.focused && r.targetAttached == s.targetAttached
    ensures r.actionOrder == s.actionOrder && r.pluginOrder == s.pluginOrder
    ensures !IsMouse(s, name) || s.plugins[name].enabled == v ==> r == s
    ensures IsMouse(s, name) && s.plugins[name].enabled != v ==>
      && Consistent(r)
      && r.plugins == s.plugins[name := s.plugins[name].(enabled := v, pressed := if v then s.plugins[name].pressed else {})]
    ensures r.actions.Keys == s.actions.Keys
  {
    if !IsMouse(s, name) then s
    else
      var p := s.plugins[name];
      if p.enabled == v then s
      else
        UpdateTwice(s.plugins, name, p.(enabled := v), p.(enabled := v, pressed := {}));
        UpdateAll(Pushed(s, name, v))
  }

  /** The registry between the setter's own push or reset and the recompute. */
  function Pushed(s: System, name: string, v: bool): (r: System)
    requires Valid(s) && name in s.plugins
    ensures Valid(r)
    ensures r.actions.Keys == s.actions.Keys && r.targetAttached == s.targetAttached
    ensures r.plugins.Keys == s.plugins.Keys
    ensures forall k :: k in s.plugins ==> r.plugins[k].config == s.plugins[k].config
    ensures forall n :: n !in s.plugins[name].config.bindings && n in s.actions ==> r.actions[n] == s.actions[n]
    ensures r.trace == s.trace + (if s.targetAttached then
      EdgesOf(s.actions, s.plugins[name].config.names, if v then Sources.AnswerOf(s.plugins[name].(enabled := v)) else Off)
      else [])
  {
    var q := s.plugins[name].(enabled := v);
    Sources.ValidWithPlugin(s, name, q);
    var s1 := Sources.WithPlugin(s, name, q);
    if v then
      Sources.PushAllActions(s1, name);
      Sources.PushAll(s1, name)
    else
      Sources.ResetAllActions(s1, name);
      Sources.ResetAll(s1, name)
  }

  /**
   What the setter dispatches: first its own push (enabling) or reset
   (disabling) of the actions the plugin configures, in configuration
   order, then the changes of the recompute.
   */
  lemma SetEnabledTrace(s: System, name: string, v: bool)
    requires Valid(s) && IsMouse(s, name) && s.plugins[name].enabled != v
    ensures
      var p := s.plugins[name];
      var s2 := Pushed(s, name, v);
      var own := if v then Sources.AnswerOf(p.(enabled := v)) else Off;
      SetEnabled(s, name, v).trace == s.trace + (if s.targetAttached then
        EdgesOf(s.actions, p.config.names, own) + EdgesOf(s2.actions, ConfiguredNames(s2), AutoOf(s2))
        else [])
  {
    var p := s.plugins[name];
    UpdateAllAfter(s.trace, Pushed(s, name, v),
      EdgesOf(s.actions, p.config.names, if v then Sources.AnswerOf(p.(enabled := v)) else Off));
  }

  /** Enabling or disabling the plugin leaves the actions no plugin configures as they were. */
  lemma SetEnabledFrame(s: System, name: string, v: bool)
    requires Valid(s)
    ensures var r := SetEnabled(s, name, v);
      forall n :: !Configured(s, n) && n in s.actions ==> r.actions[n] == s.actions[n]
  {
    if IsMouse(s, name) && s.plugins[name].enabled != v {
      forall n | !Configured(s, n) && n in s.actions
        ensures SetEnabled(s, name, v).actions[n] == s.actions[n]
      {
        PushedKeeps(s, name, v, n);
      }
    }
  }

  lemma PushedKeeps(s: System, name: string, v: bool, n: string)
    requires Valid(s) && name in s.plugins
    requires !Configured(s, n) && n in s.actions
    ensures UpdateAll(Pushed(s, name, v)).actions[n] == s.actions[n]
  {
    var s2 := Pushed(s, name, v);
    assert n !in s.plugins[name].config.bindings;
    assert !Configured(s2, n);
  }

  /**
   Disabling the mouse plugin withdraws its contribution: afterwards an
   action is active exactly when another plugin reports it active.
   */
  lemma DisableWithdraws(s: System, name: string)
    requires Valid(s) && IsMouse(s, name) && s.plugins[name].enabled
    ensures
      var r := SetEnabled(s, name, false);
      forall n :: Configured(r, n) ==>
        (r.actions[n] <==> exists k :: k in s.plugins && k != name && Plugins.IsActionActive(s.plugins[k], n))
  {
    var r := SetEnabled(s, name, false);
    var q := s.plugins[name].(enabled := false, pressed := {});
    forall n | Configured(r, n)
      ensures r.actions[n] <==> exists k :: k in s.plugins && k != name && Plugins.IsActionActive(s.plugins[k], n)
    {
      assert IsActionActive(r, n) == IsActionActiveAuto(r, n);
      OthersDecide(s, r, name, q, n);
    }
  }

  /** A disabled mouse plugin ignores its buttons. */
  lemma DisabledIgnoresButtons(s: System, name: string, button: int)
    requires Valid(s) && IsMouse(s, name)
    ensures
      var r := SetEnabled(s, name, false);
      MouseDown(r, name, button) == r && MouseUp(r, name, button) == r
  {
  }

  /**
   The mouse plugin's `bindActions(d)`: the shared binding loop, then the
   controller recomputes every configured action.
   */
  function BindActions(s: System, name: string, d: Bindings.Config): (r: System)
    requires Valid(s) && Bindings.Valid(d)
    ensures Valid(r)
    ensures r.enabled == s.enabled && r.focused == s.focused && r.targetAttached == s.targetAttached
    ensures !IsMouse(s, name) ==> r == s
    ensures IsMouse(s, name) ==>
      && Consistent(r)
      && r.plugins == s.plugins[name := s.plugins[name].(config := Bindings.Overwrite(s.plugins[name].config, d))]
      && r.actionOrder == AddNew(s.actionOrder, d.names)
      && forall n :: n in d.bindings ==> n in r.actions
  {
    if !IsMouse(s, name) then s else UpdateAll(Sources.BindActions(s, name, d))
  }

  /**
   After the mouse plugin's `bindActions(d)` the registry holds the old
   actions and the names of `d`; an action `d` does not name and no plugin
   configured keeps its state.
   */
  lemma BindActionsFrame(s: System, name: string, d: Bindings.Config)
    requires Valid(s) && Bindings.Valid(d) && IsMouse(s, name)
    ensures var r := BindActions(s, name, d);
      && (forall n :: n in r.actions <==> n in s.actions || n in d.bindings)
      && (forall n :: n !in d.bindings && !Configured(s, n) && n in s.actions ==> r.actions[n] == s.actions[n])
  {
    forall n | n !in d.bindings && !Configured(s, n) && n in s.actions
      ensures BindActions(s, name, d).actions[n] == s.actions[n]
    {
      BoundKept(s, name, d, n);
    }
  }

  lemma BoundKept(s: System, name: string, d: Bindings.Config, n: string)
    requires Valid(s) && Bindings.Valid(d) && IsMouse(s, name)
    requires n !in d.bindings && !Configured(s, n) && n in s.actions
    ensures UpdateAll(Sources.BindActions(s, name, d)).actions[n] == s.actions[n]
  {
    var s1 := Sources.BindActions(s, name, d);
    UnconfiguredAfterConfig(s1.plugins, name, Bindings.Overwrite(s.plugins[name].config, d), s, n);
    assert !Configured(s1, n);
  }

  /**
   What the mouse plugin's `bindActions(d)` dispatches: the binding loop's
   reports (only when the plugin is enabled), then the changes of the
   recompute.
   */
  lemma BindActionsTrace(s: System, name: string, d: Bindings.Config)
    requires Valid(s) && Bindings.Valid(d) && IsMouse(s, name)
    ensures var s1 := Sources.BindActions(s, name, d);
      BindActions(s, name, d).trace == s.trace + (if s.targetAttached then
        (if s.plugins[name].enabled then EdgesOf(s.actions, d.names, Sources.AnswerOf(s1.plugins[name])) else [])
        + EdgesOf(s1.actions, ConfiguredNames(s1), AutoOf(s1))
        else [])
  {
    var s1 := Sources.BindActions(s, name, d);
    var head := if s.plugins[name].enabled then EdgesOf(s.actions, d.names, Sources.AnswerOf(s1.plugins[name])) else [];
    assert s1.trace == s.trace + (if s1.targetAttached then head else []) by {
      Sources.BindActionsTrace(s, name, d);
    }
    UpdateAllAfter(s.trace, s1, head);
  }

  /**
   `handleContextMenu`: the default action is prevented while both the
   switch and the plugin are on.
   */
  function PreventsContextMenu(s: System, name: string): (r: bool)
    ensures r ==> IsMouse(s, name) && s.plugins[name].enabled
  {
    IsMouse(s, name) && s.plugins[name].preventContextMenu && s.plugins[name].enabled
  }

  /** The `preventContextMenu` setter: a plain field of the plugin, nothing else changes. */
  function SetPreventContextMenu(s: System, name: string, v: bool): (r: System)
    ensures !IsMouse(s, name) ==> r == s
    ensures IsMouse(s, name) ==> r.plugins == s.plugins[name := s.plugins[name].(preventContextMenu := v)]
    ensures r.(plugins := s.plugins) == s
  {
    if !IsMouse(s, name) then s
    else s.(plugins := s.plugins[name := s.plugins[name].(preventContextMenu := v)])
  }

  /** While the plugin is enabled the switch alone decides. */
  lemma ContextMenuSwitch(s: System, name: string, v: bool)
    requires IsMouse(s, name) && s.plugins[name].enabled
    ensures PreventsContextMenu(SetPreventContextMenu(s, name, v), name) == v
  {
  }

  /** A disabled plugin never prevents the menu, whatever the switch says. */
  lemma DisabledAllowsContextMenu(s: System, name: string)
    requires Valid(s) && IsMouse(s, name)
    ensures !PreventsContextMenu(SetEnabled(s, name, false), name)
  {
  }

  /** `getButtonName(b)`: the three standard buttons by name, any other by number. */
  function ButtonName(b: Short): (r: string)
    ensures b == 0 <==> r == "Left"
    ensures b == 1 <==> r == "Middle"
    ensures b == 2 <==> r == "Right"
    ensures b !in {0, 1, 2} ==>
      && |r| > 7 && r[..7] == "Button " && Decimal.Canonical(r[7..])
      && Decimal.Numeral(r[7..]) && Decimal.ParseInt(r[7..]) == b as int
  {
    if b == 0 then "Left"
    else if b == 1 then "Middle"
    else if b == 2 then "Right"
    else
      var digits := Decimal.IntString(b as int);
      Decimal.ParseIntString(b as int);
      var r := "Button " + digits;
      assert r[..7] == "Button " && r[7..] == digits;
      r
  }

  /** Different buttons get different names. */
  lemma ButtonNameInjective(a: Short, b: Short)
    requires ButtonName(a) == ButtonName(b)
    ensures a == b
  {
    if a !in {0, 1, 2} && b !in {0, 1, 2} {
      var r := ButtonName(a);
      assert Decimal.ParseInt(r[7..]) == a as int && Decimal.ParseInt(r[7..]) == b as int;
    }
  }
}
