/**
 The keyboard plugin's key handlers and its `enabled` setter, acting on
 the whole system through the keyboard plugin held under `name`. For a
 name that holds no keyboard plugin they change nothing.
 `updateAllActionsState` and `resetAllActions` are the shared ones of
 `Sources`.
 */
module Keyboard {
  import opened Seqs
  import Bindings
  import Plugins
  import opened Controller
  import Sources

  /** `name` holds a keyboard plugin. */
  predicate IsKeyboard(s: System, name: string) {
    name in s.plugins && s.plugins[name].kind == Plugins.Keyboard
  }

  /**
   The guard of both key handlers: the plugin is enabled and holds its
   controller, and that controller is enabled and focused.
   */
  predicate Handles(s: System, name: string) {
    && IsKeyboard(s, name)
    && s.plugins[name].enabled && s.plugins[name].linked
    && s.enabled && s.focused
  }

  /**
   `handleKeyDown`: outside the guard, or for a key already down, nothing
   happens; otherwise the key goes down and the actions bound to it are
   reported (see `KeyDownActivates`).
   */
  function KeyDown(s: System, name: string, code: int): (r: System)
    requires Valid(s)
    ensures Valid(r)
    ensures r.enabled == s.enabled && r.focused == s.focused && r.targetAttached == s.targetAttached
    ensures r.actionOrder == s.actionOrder && r.pluginOrder == s.pluginOrder
    ensures !Handles(s, name) || code in s.plugins[name].pressed ==> r == s
    ensures Handles(s, name) && code !in s.plugins[name].pressed ==>
      r.plugins == s.plugins[name := s.plugins[name].(pressed := s.plugins[name].pressed + {code})]
  {
    if !Handles(s, name) then s else Sources.Toggle(s, name, code, true)
  }

  /**
   After a handled key press every action bound to the key is active,
   unless its binding is switched off, whatever the plugin's other keys
   are doing; no other action changes.
   */
  lemma KeyDownActivates(s: System, name: string, code: int)
    requires Valid(s) && Handles(s, name) && code !in s.plugins[name].pressed
    ensures
      var r := KeyDown(s, name, code);
      var c := s.plugins[name].config;
      && (forall n :: Bindings.Binds(c, n, code) ==> r.actions[n] == Bindings.SwitchedOn(c.bindings[n]))
      && (forall n :: !Bindings.Binds(c, n, code) && n in s.actions ==> r.actions[n] == s.actions[n])
  {
    var r := KeyDown(s, name, code);
    var c := s.plugins[name].config;
    Sources.ToggleActions(s, name, code, true);
    forall n | Bindings.Binds(c, n, code)
      ensures r.actions[n] == Bindings.SwitchedOn(c.bindings[n])
    {
      assert code in Bindings.Normalize(c.bindings[n].ids) && code in r.plugins[name].pressed;
    }
  }

  /**
   `handleKeyUp`: outside the guard, or for a key not down, nothing
   happens; otherwise the key goes up and the actions bound to it are
   reported (see `KeyUpReleases`).
   */
  function KeyUp(s: System, name: string, code: int): (r: System)
    requires Valid(s)
    ensures Valid(r)
    ensures r.enabled == s.enabled && r.focused == s.focused && r.targetAttached == s.targetAttached
    ensures r.actionOrder == s.actionOrder && r.pluginOrder == s.pluginOrder
    ensures !Handles(s, name) || code !in s.plugins[name].pressed ==> r == s
    ensures Handles(s, name) && code in s.plugins[name].pressed ==>
      r.plugins == s.plugins[name := s.plugins[name].(pressed := s.plugins[name].pressed - {code})]
  {
    if !Handles(s, name) then s else Sources.Toggle(s, name, code, false)
  }

  /**
   After a handled key release an action bound to the key stays active
   exactly when its binding is on and another of its keys is still down;
   no other action changes. Only this plugin is asked: another plugin
   holding the action active does not keep it active.
   */
  lemma KeyUpReleases(s: System, name: string, code: int)
    requires Valid(s) && Handles(s, name) && code in s.plugins[name].pressed
    ensures
      var r := KeyUp(s, name, code);
      var p := s.plugins[name];
      && (forall n :: Bindings.Binds(p.config, n, code) ==>
            (r.actions[n] <==>
              && Bindings.SwitchedOn(p.config.bindings[n])
              && exists k :: k in Bindings.Normalize(p.config.bindings[n].ids) && k != code && k in p.pressed))
      && (forall n :: !Bindings.Binds(p.config, n, code) && n in s.actions ==> r.actions[n] == s.actions[n])
  {
    Sources.ToggleActions(s, name, code, false);
  }

  /**
   A handled press followed by the release of the same key restores the
   plugin, and leaves every action bound to the key at the plugin's answer
   from before the press.
   */
  lemma KeyPressThenRelease(s: System, name: string, code: int)
    requires Valid(s) && Handles(s, name) && code !in s.plugins[name].pressed
    ensures
      var r := KeyUp(KeyDown(s, name, code), name, code);
      var p := s.plugins[name];
      && r.plugins == s.plugins
      && (forall n :: Bindings.Binds(p.config, n, code) ==> r.actions[n] == Plugins.IsActionActive(p, n))
      && (forall n :: !Bindings.Binds(p.config, n, code) && n in s.actions ==> r.actions[n] == s.actions[n])
  {
    var p := s.plugins[name];
    var s1 := KeyDown(s, name, code);
    var r := KeyUp(s1, name, code);
    assert s1.plugins[name] == p.(pressed := p.pressed + {code});
    Sources.ToggleActions(s, name, code, true);
    Sources.ToggleActions(s1, name, code, false);
    assert p.pressed + {code} - {code} == p.pressed;
    UpdateTwice(s.plugins, name, p.(pressed := p.pressed + {code}), p);
    UpdateSame(s.plugins, name);
  }

  /**
   The `enabled` setter. Setting the value it already has does nothing.
   Enabling pushes the plugin's answers to the controller; disabling
   reports every configured action inactive and empties the pressed set.
   */
  function SetEnabled(s: System, name: string, v: bool): (r: System)
    requires Valid(s)
    ensures Valid(r)
    ensures r.enabled == s.enabled && r.focused == s.focused && r.targetAttached == s.targetAttached
    ensures r.actionOrder == s.actionOrder && r.pluginOrder == s.pluginOrder
    ensures r.actions.Keys == s.actions.Keys
    ensures !IsKeyboard(s, name) || s.plugins[name].enabled == v ==> r == s
    ensures IsKeyboard(s, name) && s.plugins[name].enabled != v ==>
      r.plugins == s.plugins[name := s.plugins[name].(enabled := v, pressed := if v then s.plugins[name].pressed else {})]
  {
    if !IsKeyboard(s, name) then s
    else
      var p := s.plugins[name];
      if p.enabled == v then s
      else
        var s1 := Sources.WithPlugin(s, name, p.(enabled := v));
        Sources.ValidWithPlugin(s, name, p.(enabled := v));
        if v then Sources.PushAll(s1, name)
        else
          UpdateTwice(s.plugins, name, p.(enabled := v), p.(enabled := v, pressed := {}));
          Sources.ResetAll(s1, name)
  }

  /**
   What the setter leaves in the registry: after enabling, every action
   the plugin configures stores the plugin's answer; after disabling every
   one is inactive and the plugin answers false for everything. Actions
   the plugin does not configure are untouched either way.
   */
  lemma SetEnabledActions(s: System, name: string, v: bool)
    requires Valid(s) && IsKeyboard(s, name) && s.plugins[name].enabled != v
    ensures
      var r := SetEnabled(s, name, v);
      var c := s.plugins[name].config;
      && (forall n :: n in c.bindings ==> r.actions[n] == (v && Plugins.IsActionActive(r.plugins[name], n)))
      && (forall n :: n !in c.bindings && n in s.actions ==> r.actions[n] == s.actions[n])
      && (!v ==> forall n :: !Plugins.IsActionActive(r.plugins[name], n))
  {
    var p := s.plugins[name];
    var s1 := Sources.WithPlugin(s, name, p.(enabled := v));
    Sources.ValidWithPlugin(s, name, p.(enabled := v));
    if v {
      Sources.PushAllActions(s1, name);
    } else {
      Sources.ResetAllActions(s1, name);
    }
  }

  /**
   The keyboard plugin's `bindActions(d)`: the shared binding loop of
   `Sources`, with no recompute afterwards.
   */
  function BindActions(s: System, name: string, d: Bindings.Config): (r: System)
    requires Valid(s) && Bindings.Valid(d)
    ensures Valid(r)
    ensures r.pluginOrder == s.pluginOrder && r.enabled == s.enabled
    ensures r.focused == s.focused && r.targetAttached == s.targetAttached
    ensures !IsKeyboard(s, name) ==> r == s
    ensures IsKeyboard(s, name) ==>
      var p := s.plugins[name];
      && r.plugins == s.plugins[name := p.(config := Bindings.Overwrite(p.config, d))]
      && (forall n :: n in r.actions <==> n in s.actions || n in d.bindings)
      && r.actionOrder == AddNew(s.actionOrder, d.names)
      && (forall n :: n !in d.bindings && n in s.actions ==> r.actions[n] == s.actions[n])
      && (forall n :: n in d.bindings ==>
            r.actions[n] == (if p.enabled then Plugins.IsActionActive(r.plugins[name], n) else Stored(s.actions, n)))
      && r.trace == s.trace + (if s.targetAttached && p.enabled
           then EdgesOf(s.actions, d.names, Sources.AnswerOf(r.plugins[name])) else [])
  {
    if !IsKeyboard(s, name) then s
    else
      Sources.BindActionsTrace(s, name, d);
      Sources.BindActions(s, name, d)
  }

  /** A disabled keyboard plugin ignores its keys. */
  lemma DisabledIgnoresKeys(s: System, name: string, code: int)
    requires Valid(s) && IsKeyboard(s, name)
    ensures
      var r := SetEnabled(s, name, false);
      KeyDown(r, name, code) == r && KeyUp(r, name, code) == r
  {
  }
}
