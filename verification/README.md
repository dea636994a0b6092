# InputController action-state engine, in Dafny

This project models the action-state engine of InputController. It covers the `InputController` class together with its two source plugins, `KeyboardPlugin` and `MousePlugin`. The plugins keep a reference to their controller and call back into it, so the model treats the controller and every plugin it holds as one value, `Controller.System`. Each operation is a pure function from one system to the next.

- **Actions.** The controller's `actions` map holds each action's stored `active` bit, kept in the map's insertion order.
- **Plugins.** The `plugins` map holds every plugin in insertion order. Each plugin has:
  - its kind;
  - its `enabled` flag;
  - its action configuration (`actionsConfig`);
  - its pressed set (`keyStates` / `mouseStates`, as the set of ids whose entry is true);
  - whether it holds a controller reference;
  - the mouse plugin's `preventContextMenu` switch.
- **Flags.** The controller's `enabled` and `focused` flags, and whether a target is attached.
- **Trace.** The `action-activated` / `action-deactivated` events dispatched on the target so far. Each one records only the action's name.

An invariant `Controller.Valid` holds in every system the modelled operations reach:

- the orders list exactly the maps' keys;
- every configuration is a well-formed object;
- every held plugin is linked;
- every action a plugin configures is registered.

Every operation that needs the invariant keeps it.

Modules follow the source:

- `Controller` (input-controller.js).
- `Plugins`: the state a plugin keeps and the queries that read only it (`isActionActive`, `init`, `destroy`).
- `Bindings`: the `actionsConfig` object and `bindActions`' overwrite.
- `Sources`: the code the two plugins share line for line, defined once. This covers `updateAllActionsState`, `resetAllActions`, the body of a key or button handler, and `bindActions`.
- `Keyboard` and `Mouse`: the handlers, the `enabled` setters, the mouse plugin's extras, and `getButtonName`.
- `Decimal`: the decimal rendering that `getButtonName` uses.
- `Seqs`: sequence and map helpers.
- `Scenarios`: lemmas about how several operations interact.

The code behaves as follows in places where a reader might expect otherwise, and the model follows it:

- `bindActions` overwrites an action's binding; it does not merge the ids.
- The controller's `isActionActive` returns the stored bit with no `enabled` or `focused` gating.
- `handleBlur` leaves the pressed sets as they are, so `handleFocus` reads keys held through the blur as still down (`Scenarios.ReleaseWhileBlurredIsLost`).
- `removePlugin` recomputes only the actions some remaining plugin still configures. An action only the removed plugin configured keeps its stored state (`Scenarios.RemovedPluginLeavesActionActive`).
- There is no per-action enable or disable.
- A key event pushes only the keyboard's own answer, so the stored state can disagree with the OR over the plugins (`Scenarios.KeyUpOverridesOtherPlugin`). A mouse event restores agreement through `notifyController`, which is `Controller.UpdateAll` (`Scenarios.MouseEventRestoresConsistency`).

## Model

| member | source | states |
|---|---|---|
| Controller.New | input-controller.js:2-7 | A new controller has no actions and no plugins. It is enabled and focused, has no target and has dispatched nothing, and the invariant holds. |
| Controller.Edge | input-controller.js:35-38 | The event names the action, and it is an activation exactly when the new state is active. |
| Controller.RegisterAction | input-controller.js:16-23 | Afterwards the name is registered. A known name leaves the whole system unchanged, including its stored bit. A new name starts inactive at the end of the order. Nothing else changes and nothing is dispatched. |
| Controller.RegisterAll | input-controller.js:92-96 | Registering a list of names: the registry becomes the old names plus the list. The order is the old order followed by the list's new names, first occurrence first. Known actions keep their bits, new ones are inactive, and nothing is dispatched. |
| Controller.SetActionState | input-controller.js:25-46 | The action stores the reported value and no other action changes. An unknown name is registered at the end of the order. Exactly one event, of the right kind, is appended when the old value differed and a target is attached; otherwise none is. |
| Controller.SetActionStateIdempotent | input-controller.js:32 | Reporting the value an action already holds changes nothing and dispatches nothing. |
| Controller.ReportAllNotifiesChanges | input-controller.js:25-46 | Over any stream of reports for one action, the trace grows by one event per change of value and none per repeated value. The action ends at the last value reported. |
| Controller.IsActionActive | input-controller.js:48-51 | True exactly when the action is registered and its stored bit is set, so an unknown name answers false. |
| Controller.IsActionActiveUngated | input-controller.js:48-51 | Changing the controller's `enabled` or `focused` flag does not change the answer. |
| Controller.AnyActive | input-controller.js:53-63 | The scan over the plugins in order is true exactly when some plugin in the order answers true. |
| Controller.IsActionActiveAuto | input-controller.js:53-63 | True exactly when some held plugin answers true for the action. |
| Controller.OthersDecide | input-controller.js:53-63 | When one plugin answers false, the OR over all plugins is the OR over the others. |
| Controller.ConfiguredNames | input-controller.js:66-74 | The collected names are distinct, and a name is collected exactly when some held plugin configures it. |
| Controller.UpdateAll | input-controller.js:65-80 | Every configured action stores the OR of the plugins' answers, and actions no plugin configures are untouched. The registry's keys and order are kept. One event goes out per configured action whose state changed, in first-configured order, when a target is attached. |
| Controller.UpdateAllSettled | input-controller.js:65-80 | When every configured action already stores the OR, recomputing changes nothing and dispatches nothing. |
| Controller.UpdateAllIdempotent | input-controller.js:65-80 | Recomputing twice is recomputing once. |
| Controller.HandleFocus | input-controller.js:148-153 | Focused afterwards, and every configured action stores the OR of the plugins' answers. Plugins and unconfigured actions are untouched. With a target attached, one event goes out per configured action whose state changed, in first-configured order; without one, nothing. Both the action order and the plugin order are kept. |
| Controller.HandleBlur | input-controller.js:155-164 | Unfocused afterwards and every action inactive. Plugins and their pressed sets are kept. With a target attached, one deactivation goes out per previously active action, in insertion order. Both the action order and the plugin order are kept. |
| Controller.BlurDeactivatesEachActiveOnce | input-controller.js:159-163 | Every event a blur adds is a deactivation. No action gets two. An action gets one exactly when it was active before the blur. |
| Controller.SetEnabled | input-controller.js:5 | The controller's `enabled` is a plain field: setting it changes nothing else. |
| Controller.Attach | input-controller.js:117-131 | Attaching records the target and leaves every configured action at the OR of the plugins' answers. The registry's keys are kept and unconfigured actions are untouched. The recompute's events, one per configured action that changed, go to the new target. Both the action order and the plugin order are kept. |
| Controller.Detach | input-controller.js:133-146 | Detaching drops the target and changes nothing else. |
| Controller.AddPlugin | input-controller.js:82-103 | A taken name leaves the system unchanged. Otherwise the plugin is initialised and held last in order, and its configured actions are registered: the registry gains exactly those names, appended in configuration order after the old ones. Every configured action then stores the OR of the plugins' answers, and the others are untouched. Registering dispatches nothing; the recompute dispatches one event per configured action whose state changed, with a target attached. |
| Controller.RemovePlugin | input-controller.js:105-115 | An unknown name leaves the system unchanged. Otherwise the plugin is dropped and configured actions store the OR again. The registry's keys and order are kept, and the plugin order loses only the removed name. Actions no remaining plugin configures keep their stored state. The recompute's events, one per changed action that is still configured, go out with a target attached. |
| Controller.Destroy | input-controller.js:166-172 | The target is detached, the registry and the plugin map are empty, and nothing is dispatched. |
| Bindings.Put | keyboard-plugin.js:158 | Assigning one entry: the binding is replaced. A new name goes last in the key order and an existing one keeps its place. |
| Bindings.BoundTo | keyboard-plugin.js:99-103 | Exactly the configured actions whose ids include the given id, once each, in configuration order. |
| Bindings.Overwrite | keyboard-plugin.js:157-158 | After binding `d`, each entry of `d` replaces the entry of the same name, and the other entries keep theirs. The new key order is the old one followed by `d`'s new names in `d`'s order, so it is unchanged when `d` names only known actions. |
| Bindings.OverwriteHeld | keyboard-plugin.js:157-158 | Binding entries the configuration already holds, with the same values, leaves it unchanged. |
| Bindings.OverwriteIdempotent | keyboard-plugin.js:157-158 | Binding the same configuration twice equals binding it once. |
| Plugins.New | keyboard-plugin.js:2-7 | A new plugin is enabled, has nothing pressed and holds no controller. The mouse plugin's context-menu prevention starts on (mouse-plugin.js:8). |
| Plugins.Init | keyboard-plugin.js:32-33 | `init` links the plugin to its controller and changes nothing else about it. |
| Plugins.Destroy | keyboard-plugin.js:67-73 | Destroying empties the pressed set and drops the controller, and keeps the configuration and the enabled flag. The mouse plugin's `destroy` (mouse-plugin.js:76-82) does the same to its button states. |
| Plugins.FirstPressed | keyboard-plugin.js:81-87 | The scan answers the binding's verdict exactly when some listed id is pressed, and false otherwise. |
| Plugins.IsActionActive | keyboard-plugin.js:75-88 | False when the plugin is disabled or the action unconfigured. Otherwise true exactly when some bound key is down and the binding is not switched off by `enabled: false`. The mouse plugin gives the same answer over buttons (mouse-plugin.js:84-97). |
| Plugins.IsActionActiveLocal | keyboard-plugin.js:75-88 | A plugin's answer for an action depends only on its enabled flag, its pressed set and that action's own binding. |
| Plugins.ScalarIsSingletonList | keyboard-plugin.js:79 | A scalar id answers, and binds, exactly like the one-element list holding it. |
| Sources.PushAll | keyboard-plugin.js:134-142 | Pushing keeps the invariant, the plugins, the flags and the registry's keys and order. A name that holds no plugin changes nothing. |
| Sources.PushAllActions | keyboard-plugin.js:134-142 | After a push each configured action stores the plugin's own answer, not the OR over all plugins, and other actions are untouched. An event goes out per configured action that changed, in configuration order. The mouse plugin's copy is mouse-plugin.js:182-190. |
| Sources.PushAllSettled | keyboard-plugin.js:134-142 | When the registry already holds the plugin's answers, a push changes nothing. |
| Sources.PushAllIdempotent | keyboard-plugin.js:134-142 | Pushing twice is pushing once. |
| Sources.ResetAll | keyboard-plugin.js:144-154 | After a reset the pressed set is empty, so the plugin answers false for every action. The registry's keys and order are kept. |
| Sources.ResetAllActions | keyboard-plugin.js:144-154 | After a reset every configured action is inactive and the others are untouched. One deactivation goes out per configured action that was active. The mouse plugin's copy is mouse-plugin.js:192-202. |
| Sources.Moved | keyboard-plugin.js:96 | Moving an id changes the pressed set at that id only. |
| Sources.Toggle | keyboard-plugin.js:95-109 | A press of an id already down, or a release of one already up, changes nothing. Otherwise the pressed set changes at that id and the registry's keys and order are kept. |
| Sources.ToggleActions | keyboard-plugin.js:99-108 | Every action bound to the id, not only the first, stores the plugin's new answer, and unbound actions are untouched. An event goes out for each bound action whose state changed. |
| Sources.BindOne | keyboard-plugin.js:158-167 | One entry: the binding is replaced and the action registered, a new name going last in the registry order. An enabled plugin stores its answer under the new binding; a disabled one keeps the known state, or starts the new action inactive. No other action changes. |
| Sources.BindOneTrace | keyboard-plugin.js:161-166 | One entry dispatches at most one event: for an enabled plugin with a target attached, exactly when its answer differs from the stored state, an unknown action counting as inactive. |
| Sources.BindEach | keyboard-plugin.js:157-169 | Binding the listed entries one after another gives the configuration `OverwriteEach` computes. The registry order becomes the old order followed by the entries' new names, first occurrence first. Other plugins and flags are kept. |
| Sources.BindEachActions | keyboard-plugin.js:157-169 | After the loop each bound action is registered. It stores the plugin's answer when the plugin is enabled and its earlier state otherwise. Unbound actions are untouched. |
| Sources.BindEachTrace | keyboard-plugin.js:157-169 | Binding distinct entries dispatches, for an enabled plugin with a target attached, one event per entry whose final answer differs from its state before the loop, in entry order. Otherwise it dispatches nothing. |
| Sources.BindActions | keyboard-plugin.js:156-170 | `bindActions(d)` overwrites the plugin's configuration with `d` and registers every name of `d`, new names joining the registry order in `d`'s order. Each of them stores the plugin's answer (enabled) or its earlier state (disabled). Other actions are untouched. |
| Sources.BindActionsTrace | keyboard-plugin.js:156-170 | `bindActions(d)` dispatches one event per entry of `d` whose new answer differs from its earlier state, in `d`'s order, when the plugin is enabled and a target attached; otherwise nothing. |
| Keyboard.KeyDown | keyboard-plugin.js:90-110 | Outside the guard (plugin or controller disabled, no controller, unfocused), or for a key already down, nothing changes. Otherwise the key is added to the pressed set. Both the action order and the plugin order are kept. |
| Keyboard.KeyDownActivates | keyboard-plugin.js:99-108 | After a handled press every action bound to the key is active unless switched off, and no other action changes. |
| Keyboard.KeyUp | keyboard-plugin.js:112-132 | Outside the guard, or for a key not down, nothing changes. Otherwise the key leaves the pressed set. Both the action order and the plugin order are kept. |
| Keyboard.KeyUpReleases | keyboard-plugin.js:121-130 | After a handled release a bound action stays active exactly when its binding is on and another of its keys is still down. Other actions are untouched. |
| Keyboard.KeyPressThenRelease | keyboard-plugin.js:90-132 | Press then release of a key restores the plugins. Actions bound to the key end at the plugin's answer from before the press, and other actions are untouched. |
| Keyboard.SetEnabled | keyboard-plugin.js:13-26 | Setting the current value, or a name holding no keyboard plugin, changes nothing. Disabling empties the pressed set. The registry's keys are kept. Both the action order and the plugin order are kept. |
| Keyboard.SetEnabledActions | keyboard-plugin.js:13-26 | After enabling, configured actions store the plugin's answers. After disabling, they are inactive and the plugin answers false for everything. Unconfigured actions are untouched. |
| Keyboard.BindActions | keyboard-plugin.js:156-170 | The keyboard plugin's `bindActions(d)` has no recompute: the configuration is overwritten and every name of `d` registered, new names joining the registry order in `d`'s order. Enabled, each stores the plugin's answer; disabled, its earlier state. Other actions are untouched, and events go out as for the shared loop. |
| Keyboard.DisabledIgnoresKeys | keyboard-plugin.js:91 | Once the keyboard plugin is disabled, key presses and releases change nothing. |
| Mouse.MouseDown | mouse-plugin.js:99-125 | The guard does not look at focus. Outside it, or for a button already down, nothing changes. Otherwise the button goes down and every configured action stores the OR over all plugins. The registry's keys are kept. Both the action order and the plugin order are kept. |
| Mouse.MouseDownActivates | mouse-plugin.js:108-123 | After a handled press every switched-on action bound to the button is active. |
| Mouse.MouseUp | mouse-plugin.js:127-149 | Outside the guard, or for a button not down, nothing changes. Otherwise the button goes up and every configured action stores the OR over all plugins. The registry's keys are kept. Both the action order and the plugin order are kept. |
| Mouse.ButtonFrame | mouse-plugin.js:99-149 | A handled press or release leaves every action no plugin configures as it was. |
| Mouse.ButtonTrace | mouse-plugin.js:108-124 | A handled press or release first dispatches the plugin's own answer for each action bound to the button, in configuration order, then the recompute's changes. With no target attached it dispatches nothing. |
| Mouse.ClickRestores | mouse-plugin.js:99-149 | Press then release of a button restores the plugins. Every configured action ends at the OR of the plugins' answers from before the click. |
| Mouse.SetEnabled | mouse-plugin.js:15-29 | Setting the current value changes nothing. Otherwise the flag and pressed set change as for the keyboard, and every configured action stores the OR over all plugins. The registry's keys are kept. Both the action order and the plugin order are kept. |
| Mouse.Pushed | mouse-plugin.js:16-24 | Between the setter's own push or reset and the recompute: plugins' configurations and the registry's keys are kept, and actions the plugin does not configure are untouched. The push (enabling) or reset (disabling) has dispatched one event per configured action that changed, in configuration order. |
| Mouse.SetEnabledTrace | mouse-plugin.js:15-29 | The setter dispatches its own push's or reset's events first, then the recompute's changes. |
| Mouse.SetEnabledFrame | mouse-plugin.js:15-29 | Enabling or disabling leaves every action no plugin configures as it was. |
| Mouse.DisableWithdraws | mouse-plugin.js:15-29 | After disabling the mouse plugin a configured action is active exactly when another plugin reports it active. |
| Mouse.DisabledIgnoresButtons | mouse-plugin.js:100 | Once the mouse plugin is disabled, presses and releases change nothing. |
| Mouse.BindActions | mouse-plugin.js:204-220 | The shared binding loop, then a recompute: the configuration is overwritten, every name of `d` is registered, new names joining the registry order in `d`'s order, and every configured action stores the OR over all plugins. |
| Mouse.BindActionsFrame | mouse-plugin.js:204-220 | The registry afterwards holds the old actions and the names of `d`. An action neither named in `d` nor configured by any plugin keeps its state. |
| Mouse.BindActionsTrace | mouse-plugin.js:204-220 | The loop's reports go out first, only when the plugin is enabled, then the recompute's changes. With no target attached nothing is dispatched. |
| Mouse.PreventsContextMenu | mouse-plugin.js:151-156 | The menu is prevented only for an enabled mouse plugin. |
| Mouse.SetPreventContextMenu | mouse-plugin.js:164-167 | The switch is a plain field: nothing but the plugin's switch changes. |
| Mouse.ContextMenuSwitch | mouse-plugin.js:151-156 | While the plugin is enabled, the menu is prevented exactly when the switch is on. |
| Mouse.DisabledAllowsContextMenu | mouse-plugin.js:151-156 | A disabled mouse plugin never prevents the menu. |
| Mouse.ButtonName | mouse-plugin.js:173-180 | For a 16-bit button value, 0, 1 and 2 are exactly the buttons named Left, Middle and Right. Any other button is named `Button ` followed by a canonical numeral (no leading zero, no `-0`) that reads back as the button. |
| Mouse.ButtonNameInjective | mouse-plugin.js:173-180 | Different buttons get different names. |
| Decimal.IntString | mouse-plugin.js:179 | The rendering is a canonical numeral: digits with no leading zero unless the number is 0, or a minus sign and such digits for a negative number, never `-0`. It starts with a minus sign exactly when the number is negative. |
| Decimal.CanonicalIsRendering | mouse-plugin.js:179 | Every canonical numeral is the rendering of the number it parses to, so a value and the canonical form fix the text. |
| Decimal.ParseIntString | mouse-plugin.js:179 | Every rendering is a numeral that parses back to the number it renders. |
| Decimal.IntStringInjective | mouse-plugin.js:179 | Different numbers render differently. |
| Scenarios.KeyUpOverridesOtherPlugin | keyboard-plugin.js:121-130 | A key release can store an action inactive while the mouse plugin still reports it active. The system is then not consistent. |
| Scenarios.ReleaseWhileBlurredIsLost | input-controller.js:148-164 | A key held through a blur, released while unfocused, is still down on focus. Its action becomes active again. |
| Scenarios.RemovedPluginLeavesActionActive | input-controller.js:105-115 | An active action configured only by the removed plugin stays active, although no plugin reports it. |
| Scenarios.MouseEventRestoresConsistency | mouse-plugin.js:123 | After a handled mouse press, every configured action again stores the OR over the plugins. |
| Scenarios.MouseUpBouncesHeldAction | mouse-plugin.js:131-147 | Releasing the mouse's last button for an action another plugin still reports active first dispatches a deactivation, from the mouse's own answer, and then an activation, from the recompute. The action ends active. |

## Left out

- DOM plumbing is not modelled: `addEventListener`/`removeEventListener`, `updateEventListeners`, the plugins' own `attach`/`detach` and `style.outline`. Attaching is the `targetAttached` flag. Every handler is an operation the environment may apply at any time; which listeners are installed is not tracked.
- `target.focus()` in `handleMouseDown` is left out. In a browser it can fire a focus event, which would be a separate `Controller.HandleFocus`.
- Console logging and the `CustomEvent` objects are not modelled. A dispatched event is recorded as its kind and the action's name, which is all its `detail` carries.
- The `ACTION_ACTIVATED` / `ACTION_DEACTIVATED` event-name strings are not modelled; the two `Note` constructors stand for them.
- The `plugins` set inside each registry entry is never read, so it is left out.
- Duck-typing checks are left out (`typeof plugin.isActionActive === 'function'`, `plugin.actionsConfig` being truthy, `notifyController`'s check). Every plugin is a keyboard or mouse plugin.
- A binding whose `keys`/`buttons` entry is missing or not a number is not modelled. Ids are integers, and JavaScript's conversion of object keys to strings is not modelled. Integer-like action names are not iterated before other keys, as a JavaScript object would do; the configuration's order is its insertion order.
- Plugins are referred to by the name they are held under. One plugin object held under two names, or one configuration object shared by two plugins, is not modelled.
- Sources.BindActions: a plugin held by no controller is outside the system. For such a plugin `bindActions` only overwrites its configuration, which is `Bindings.Overwrite`.
- Plugins.Destroy: a direct `destroy()` on a plugin the controller still holds (keyboard-plugin.js:67-73, mouse-plugin.js:76-82) is not modelled. It leaves the plugin held with no controller, so that plugin's later `bindActions` would overwrite its configuration without registering the actions, which breaks the invariant that configured actions are registered. In the model a held plugin always has its controller; a plugin leaves it only through `removePlugin` or `destroy` on the controller, so the "no controller" branch of each guard and of `updateAllActionsState`/`resetAllActions` is the name not being held.
- Controller.Attach: attaching while already attached is not modelled as a detach from the old target. The flag simply stays set.
- Mouse.ButtonName: the button is a 16-bit integer, as `MouseEvent.button` is, and over that range the decimal rendering matches a template literal's. Calling `getButtonName` directly with a number of magnitude 10^21 or more (rendered in exponent notation), a fraction or a non-finite value is not modelled.
- A binding whose value is `null` or `undefined` (`bindActions({left: null})`) is not modelled. In the source, reading `keys`/`buttons` from it throws, and a key or button handler that reaches it throws after the id has already been marked down.
- Listeners run synchronously inside `dispatchEvent`, so an `action-activated`/`action-deactivated` listener could call back into the controller or a plugin in the middle of an operation. The model treats every operation as atomic and does not model re-entrant calls.
- The code has no per-action enable or disable, no `enabled`/`focused` gating in the controller's `isActionActive`, no clearing of pressed sets on blur, and no merging of ids on rebind, so the model has none of these.
- The demo page (`input-controller-test.js`) is not part of this model.
