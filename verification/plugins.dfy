/**
 The state a source plugin keeps on its own, and the queries that read
 only that state. The keyboard and the mouse plugin share this shape; the
 kind tag selects the event handlers in the `Keyboard` and `Mouse` modules.
 */
module Plugins {
  import opened Seqs
  import opened Bindings

  datatype Kind = Keyboard | Mouse

  /**
   One plugin object. `pressed` is `keyStates` (keyboard) or `mouseStates`
   (mouse) as the set of ids whose entry is true; `linked` says whether the
   plugin holds a controller reference; `preventContextMenu` is only read by
   the mouse plugin.
   */
  datatype Plugin = Plugin(
    kind: Kind,
    enabled: bool,
    config: Config,
    pressed: set<int>,
    linked: bool,
    preventContextMenu: bool)

  /** A freshly constructed plugin: enabled, nothing pressed, no controller. */
  function New(kind: Kind, config: Config): (p: Plugin)
    ensures p.kind == kind && p.config == config
    ensures p.enabled && p.pressed == {} && !p.linked && p.preventContextMenu
  {
    Plugin(kind, true, config, {}, false, true)
  }

  /**
   `init(controller)`: the plugin takes the controller reference. Registering
   its configured actions is done by the controller in `Controller.AddPlugin`.
   */
  function Init(p: Plugin): (r: Plugin)
    ensures r.linked
    ensures r.(linked := p.linked) == p
  {
    p.(linked := true)
  }

  /**
   `destroy()`: the pressed set is emptied and the controller reference is
   dropped; configuration and the enabled flag survive.
   */
  function Destroy(p: Plugin): (r: Plugin)
    ensures r.pressed == {} && !r.linked
    ensures r.(pressed := p.pressed, linked := p.linked) == p
  {
    p.(pressed := {}, linked := false)
  }

  /** Scans `keys` in order and answers `verdict` at the first pressed one, false if none is pressed. */
  function FirstPressed(keys: seq<int>, pressed: set<int>, verdict: bool): (r: bool)
    ensures r <==> verdict && exists k :: k in keys && k in pressed
    decreases |keys|
  {
    if keys == [] then false
    else if keys[0] in pressed then
      var k := keys[0];
      assert k in keys && k in pressed;
      verdict
    else
      assert forall k :: k in keys <==> k == keys[0] || k in keys[1..];
      FirstPressed(keys[1..], pressed, verdict)
  }

  /**
   The plugin's own `isActionActive(n)`: false when the plugin is disabled
   or `n` is not configured; otherwise true iff one of the bound ids is
   pressed and the binding is not switched off.
   */
  function IsActionActive(p: Plugin, n: string): (r: bool)
    ensures r <==>
      && p.enabled
      && n in p.config.bindings
      && SwitchedOn(p.config.bindings[n])
      && exists k :: k in Normalize(p.config.bindings[n].ids) && k in p.pressed
  {
    if !p.enabled || n !in p.config.bindings then false
    else
      var b := p.config.bindings[n];
      FirstPressed(Normalize(b.ids), p.pressed, SwitchedOn(b))
  }

  /**
   A plugin's answer for `n` depends only on its enabled flag, its pressed
   set and the binding of `n` itself: rebinding other actions cannot change it.
   */
  lemma IsActionActiveLocal(p: Plugin, q: Plugin, n: string)
    requires p.enabled == q.enabled && p.pressed == q.pressed
    requires n in p.config.bindings <==> n in q.config.bindings
    requires n in p.config.bindings ==> p.config.bindings[n] == q.config.bindings[n]
    ensures IsActionActive(p, n) == IsActionActive(q, n)
  {
  }

  /** A scalar id answers exactly like the one-element list holding it. */
  lemma ScalarIsSingletonList(p: Plugin, n: string, k: int, e: Flag)
    requires Valid(p.config)
    ensures
      var ps := p.(config := Put(p.config, n, Binding(Scalar(k), e)));
      var pl := p.(config := Put(p.config, n, Binding(List([k]), e)));
      && IsActionActive(ps, n) == IsActionActive(pl, n)
      && forall id :: BoundTo(ps.config, id) == BoundTo(pl.config, id)
  {
    var ps := p.(config := Put(p.config, n, Binding(Scalar(k), e)));
    var pl := p.(config := Put(p.config, n, Binding(List([k]), e)));
    forall id
      ensures BoundTo(ps.config, id) == BoundTo(pl.config, id)
    {
      SelectCongruent(ps.config.names, m => Binds(ps.config, m, id), m => Binds(pl.config, m, id));
    }
  }
}
