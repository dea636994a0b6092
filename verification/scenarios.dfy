/**
 Behaviour that follows from how the handlers are written rather than
 from any single operation: the places where the stored state and the OR
 over the plugins part ways, and how focus interacts with held keys.
 */
module Scenarios {
  import Bindings
  import Plugins
  import opened Controller
  import Sources
  import Keyboard
  import Mouse

  /**
   Releasing a key reports only the keyboard's own answer. When the mouse
   plugin still holds the same action, the action is stored inactive
   although the OR over the plugins says active: the registry is no longer
   consistent. A later mouse event or focus recomputes it.
   */
  lemma KeyUpOverridesOtherPlugin(s: System, kb: string, other: string, code: int, n: string)
    requires Valid(s) && Keyboard.Handles(s, kb) && code in s.plugins[kb].pressed
    requires Bindings.Binds(s.plugins[kb].config, n, code)
    requires forall k :: k in Bindings.Normalize(s.plugins[kb].config.bindings[n].ids) && k in s.plugins[kb].pressed ==> k == code
    requires other in s.plugins && other != kb && Plugins.IsActionActive(s.plugins[other], n)
    ensures
      var r := Keyboard.KeyUp(s, kb, code);
      && !IsActionActive(r, n)
      && IsActionActiveAuto(r, n)
      && !Consistent(r)
  {
    var r := Keyboard.KeyUp(s, kb, code);
    Keyboard.KeyUpReleases(s, kb, code);
    assert r.plugins[other] == s.plugins[other];
    assert Configured(r, n) by {
      assert n in r.plugins[kb].config.bindings;
    }
  }

  /**
   A key held through a blur: the blur deactivates its action, the release
   arrives while unfocused and is ignored, and when focus returns the
   recompute reads the key as still down, so the action is active again
   with no key held.
   */
  lemma ReleaseWhileBlurredIsLost(s: System, kb: string, code: int, n: string)
    requires Valid(s) && Keyboard.Handles(s, kb) && code in s.plugins[kb].pressed
    requires Bindings.Binds(s.plugins[kb].config, n, code)
    requires Bindings.SwitchedOn(s.plugins[kb].config.bindings[n])
    ensures
      var blurred := HandleBlur(s);
      var released := Keyboard.KeyUp(blurred, kb, code);
      && !IsActionActive(blurred, n)
      && released == blurred
      && code in released.plugins[kb].pressed
      && IsActionActive(HandleFocus(released), n)
  {
    var blurred := HandleBlur(s);
    var r := HandleFocus(blurred);
    var p := r.plugins[kb];
    assert code in Bindings.Normalize(p.config.bindings[n].ids) && code in p.pressed;
    assert Plugins.IsActionActive(p, n);
    assert Configured(blurred, n) by {
      assert n in blurred.plugins[kb].config.bindings;
    }
  }

  /**
   Removing the only plugin that configures an active action leaves it
   active: the recompute only visits actions some remaining plugin
   configures, so nothing deactivates it.
   */
  lemma RemovedPluginLeavesActionActive(s: System, name: string, n: string)
    requires Valid(s) && name in s.plugins && IsActionActive(s, n)
    requires forall k :: k in s.plugins && k != name ==> n !in s.plugins[k].config.bindings
    ensures
      var r := RemovePlugin(s, name);
      IsActionActive(r, n) && !IsActionActiveAuto(r, n)
  {
    var r := RemovePlugin(s, name);
    assert !Configured(r, n);
  }

  /**
   A mouse event re-establishes the OR that a key release broke: after
   any handled press of a button that was up, the stored state of every
   configured action is the OR over the plugins again.
   */
  lemma MouseEventRestoresConsistency(s: System, mouse: string, button: int)
    requires Valid(s) && Mouse.Handles(s, mouse) && button !in s.plugins[mouse].pressed
    ensures Consistent(Mouse.MouseDown(s, mouse, button))
  {
  }

  /**
   Releasing a mouse button while another plugin still holds the action
   bounces it: the mouse first reports its own answer, false, and the
   recompute then reports the OR, true. The action ends active, but the
   target sees a deactivation followed by an activation.
   */
  lemma MouseUpBouncesHeldAction(s: System, m: string, other: string, button: int, n: string)
    requires Valid(s) && s.targetAttached && IsActionActive(s, n)
    requires Mouse.Handles(s, m) && button in s.plugins[m].pressed
    requires Bindings.Binds(s.plugins[m].config, n, button)
    requires forall k :: k in Bindings.Normalize(s.plugins[m].config.bindings[n].ids) && k in s.plugins[m].pressed ==> k == button
    requires other in s.plugins && other != m && Plugins.IsActionActive(s.plugins[other], n)
    ensures
      var r := Mouse.MouseUp(s, m, button);
      && IsActionActive(r, n)
      && exists i, j :: |s.trace| <= i < j < |r.trace| && r.trace[i] == Deactivated(n) && r.trace[j] == Activated(n)
  {
    var c := s.plugins[m].config;
    var s1 := Sources.Toggle(s, m, button, false);
    var r := Mouse.MouseUp(s, m, button);
    assert r == UpdateAll(s1);
    var a := EdgesOf(s.actions, Bindings.BoundTo(c, button), Sources.AnswerOf(r.plugins[m]));
    var b := EdgesOf(s1.actions, ConfiguredNames(r), AutoOf(r));
    assert r.trace == s.trace + (a + b) by {
      Mouse.ButtonTrace(s, m, button, false);
    }
    assert Deactivated(n) in a by {
      OwnAnswerFirst(s, m, button, n);
    }
    assert Activated(n) in b && IsActionActive(r, n) by {
      OrAnswerNext(s, m, other, button, n);
    }
    InOrder(s.trace, a, b, Deactivated(n), Activated(n));
  }

  /** An element of `a` comes before an element of `b` in `t + (a + b)`, and both after `t`. */
  lemma InOrder(t: seq<Note>, a: seq<Note>, b: seq<Note>, x: Note, y: Note)
    requires x in a && y in b
    ensures exists i, j :: |t| <= i < j < |t + (a + b)| && (t + (a + b))[i] == x && (t + (a + b))[j] == y
  {
    var i :| 0 <= i < |a| && a[i] == x;
    var j :| 0 <= j < |b| && b[j] == y;
    assert (t + (a + b))[|t| + i] == x && (t + (a + b))[|t| + |a| + j] == y;
  }

  /** The release's own report for `n`, with no other bound button of it down, is a deactivation. */
  lemma OwnAnswerFirst(s: System, m: string, button: int, n: string)
    requires Valid(s) && IsActionActive(s, n)
    requires m in s.plugins && button in s.plugins[m].pressed
    requires Bindings.Binds(s.plugins[m].config, n, button)
    requires forall k :: k in Bindings.Normalize(s.plugins[m].config.bindings[n].ids) && k in s.plugins[m].pressed ==> k == button
    ensures
      var s1 := Sources.Toggle(s, m, button, false);
      Deactivated(n) in EdgesOf(s.actions, Bindings.BoundTo(s.plugins[m].config, button), Sources.AnswerOf(s1.plugins[m]))
  {
    var c := s.plugins[m].config;
    var s1 := Sources.Toggle(s, m, button, false);
    assert !Plugins.IsActionActive(s1.plugins[m], n);
    assert n in Bindings.BoundTo(c, button);
    EdgesOfHas(s.actions, Bindings.BoundTo(c, button), Sources.AnswerOf(s1.plugins[m]), n);
  }

  /** After that report the recompute finds the other plugin's answer and reactivates `n`. */
  lemma OrAnswerNext(s: System, m: string, other: string, button: int, n: string)
    requires Valid(s) && m in s.plugins && button in s.plugins[m].pressed
    requires Bindings.Binds(s.plugins[m].config, n, button)
    requires forall k :: k in Bindings.Normalize(s.plugins[m].config.bindings[n].ids) && k in s.plugins[m].pressed ==> k == button
    requires other in s.plugins && other != m && Plugins.IsActionActive(s.plugins[other], n)
    ensures
      var s1 := Sources.Toggle(s, m, button, false);
      var r := UpdateAll(s1);
      && Activated(n) in EdgesOf(s1.actions, ConfiguredNames(r), AutoOf(r))
      && IsActionActive(r, n)
  {
    var s1 := Sources.Toggle(s, m, button, false);
    var r := UpdateAll(s1);
    Sources.ToggleActions(s, m, button, false);
    assert !Stored(s1.actions, n);
    assert r.plugins[other] == s.plugins[other];
    assert IsActionActiveAuto(r, n);
    assert Configured(r, n) by {
      assert n in r.plugins[m].config.bindings;
    }
    EdgesOfHas(s1.actions, ConfiguredNames(r), AutoOf(r), n);
  }
}
