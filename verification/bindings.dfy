/**
 Action bindings of a source plugin: the `actionsConfig` object of the
 keyboard and mouse plugins, an object from action name to
 `{ keys | buttons: id or [ids], enabled? }`.
 */
module Bindings {
  import opened Seqs

  /**
   The binding's own `enabled` entry as given. The plugins compare it with
   `!== false`, so only an explicit `false` switches a binding off.
   */
  datatype Flag = Unset | Given(value: bool)

  /** The raw ids (key codes or button numbers) of a binding as declared: one id, or a list. */
  datatype Ids = Scalar(id: int) | List(ids: seq<int>)

  datatype Binding = Binding(ids: Ids, enabled: Flag)

  /**
   A plugin's action configuration: the action names in the object's
   insertion order and the binding of each.
   */
  datatype Config = Config(names: seq<string>, bindings: map<string, Binding>)

  /** The shape of a JavaScript object: every key once, and the order lists exactly the keys. */
  ghost predicate Valid(c: Config) {
    Distinct(c.names) && forall n :: n in c.names <==> n in c.bindings
  }

  /** The list the plugins iterate: a scalar id is wrapped in a one-element list. */
  function Normalize(ids: Ids): seq<int> {
    match ids
    case Scalar(k) => [k]
    case List(ks) => ks
  }

  /** The binding is not switched off by `enabled: false`. */
  predicate SwitchedOn(b: Binding) {
    b.enabled != Given(false)
  }

  /** Action `n` is configured and `id` is among its raw ids. */
  predicate Binds(c: Config, n: string, id: int) {
    n in c.bindings && id in Normalize(c.bindings[n].ids)
  }

  /** The configured actions whose ids include `id`, in configuration order. */
  function BoundTo(c: Config, id: int): (r: seq<string>)
    ensures forall n :: n in r <==> n in c.names && Binds(c, n, id)
    ensures Valid(c) ==> Distinct(r)
  {
    Select(c.names, n => Binds(c, n, id))
  }

  /**
   Property assignment `config[n] = b`: the binding is replaced, and a new
   name goes to the end of the key order while an existing one keeps its place.
   */
  function Put(c: Config, n: string, b: Binding): (r: Config)
    requires Valid(c)
    ensures Valid(r)
    ensures r.bindings == c.bindings[n := b]
    ensures n in c.bindings ==> r.names == c.names
    ensures n !in c.bindings ==> r.names == c.names + [n]
  {
    Config(if n in c.bindings then c.names else c.names + [n], c.bindings[n := b])
  }

  /**
   The configuration after `bindActions(d)`: every entry of `d` overwrites
   the entry of the same name (no merging of ids), names already present
   keep their place, and the other names of `c` keep their bindings.
   */
  function Overwrite(c: Config, d: Config): (r: Config)
    requires Valid(c) && Valid(d)
    ensures Valid(r)
    ensures forall n :: n in r.bindings <==> n in c.bindings || n in d.bindings
    ensures forall n :: n in d.bindings ==> r.bindings[n] == d.bindings[n]
    ensures forall n :: n in c.bindings && n !in d.bindings ==> r.bindings[n] == c.bindings[n]
    ensures r.names == AddNew(c.names, d.names)
    ensures |c.names| <= |r.names| && r.names[..|c.names|] == c.names
    ensures (forall n :: n in d.bindings ==> n in c.bindings) ==> r.names == c.names
  {
    OverwriteEach(c, d, d.names)
  }

  /** Assigns the entries of `d` named in `todo`, in order. */
  function OverwriteEach(c: Config, d: Config, todo: seq<string>): (r: Config)
    requires Valid(c)
    requires forall n :: n in todo ==> n in d.bindings
    ensures Valid(r)
    ensures forall n :: n in r.bindings <==> n in c.bindings || n in todo
    ensures forall n :: n in r.bindings ==> r.bindings[n] == (if n in todo then d.bindings[n] else c.bindings[n])
    ensures r.names == AddNew(c.names, todo)
    ensures |c.names| <= |r.names| && r.names[..|c.names|] == c.names
    ensures (forall n :: n in todo ==> n in c.bindings) ==> r.names == c.names
    decreases |todo|
  {
    if todo == [] then c
    else
      var c' := Put(c, todo[0], d.bindings[todo[0]]);
      var r := OverwriteEach(c', d, todo[1..]);
      assert forall n :: n in todo <==> n == todo[0] || n in todo[1..];
      PrefixOfPrefix(c.names, c'.names, r.names);
      r
  }

  /** Binding entries the configuration already holds changes nothing. */
  lemma OverwriteHeld(c: Config, d: Config)
    requires Valid(c) && Valid(d)
    requires forall n :: n in d.bindings ==> n in c.bindings && c.bindings[n] == d.bindings[n]
    ensures Overwrite(c, d) == c
  {
    var r := Overwrite(c, d);
    MapsEqual(r.bindings, c.bindings);
  }

  /**
   Binding the same configuration twice has the effect of binding it once:
   no entry or name is duplicated.
   */
  lemma OverwriteIdempotent(c: Config, d: Config)
    requires Valid(c) && Valid(d)
    ensures Overwrite(Overwrite(c, d), d) == Overwrite(c, d)
  {
    OverwriteHeld(Overwrite(c, d), d);
  }
}
