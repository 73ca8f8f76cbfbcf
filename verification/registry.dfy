/** The command registry of `CLI`: a map from command name to handler,
    filled by `add_command`, which refuses a name that is already taken.
    Handlers are opaque values of type `H`. */
module Registry {
  import opened Results

  datatype RegistryError = AlreadyRegistered(name: string)

  /** `CLI.add_command`: registering a taken name raises and leaves the
      registry as it was; otherwise the name is bound to the handler and
      every other binding is kept. */
  function AddCommand<H>(commands: map<string, H>, name: string, handler: H): (r: Result<map<string, H>, RegistryError>)
    ensures r.Failure? <==> name in commands
    ensures r.Failure? ==> r.error == AlreadyRegistered(name)
    ensures r.Success? ==> r.value.Keys == commands.Keys + {name} && r.value[name] == handler
    ensures r.Success? ==> forall n :: n in commands ==> r.value[n] == commands[n]
  {
    if name in commands then Failure(AlreadyRegistered(name))
    else Success(commands[name := handler])
  }

  /** Registering `names[i]` with `handlers[i]` one after the other, as a
      setup script does; the first refusal aborts the setup. */
  function AddAll<H>(commands: map<string, H>, names: seq<string>, handlers: seq<H>): (r: Result<map<string, H>, RegistryError>)
    requires |names| == |handlers|
    ensures r.Success? ==> forall n :: n in commands ==> n in r.value && r.value[n] == commands[n]
    ensures r.Success? ==> forall i :: 0 <= i < |names| ==> names[i] in r.value
    ensures r.Failure? ==> exists i :: 0 <= i < |names| && r.error == AlreadyRegistered(names[i])
    decreases |names|
  {
    if |names| == 0 then Success(commands)
    else match AddCommand(commands, names[0], handlers[0])
      case Failure(e) => Failure(e)
      case Success(next) =>
        var r := AddAll(next, names[1..], handlers[1..]);
        assert r.Failure? ==> exists i :: 1 <= i < |names| && r.error == AlreadyRegistered(names[i]) by {
          if r.Failure? {
            var i :| 0 <= i < |names[1..]| && r.error == AlreadyRegistered(names[1..][i]);
            assert names[1..][i] == names[i + 1];
          }
        }
        r
  }

  /** The names are pairwise different and none is registered yet. */
  ghost predicate Fresh<H>(commands: map<string, H>, names: seq<string>) {
    && (forall i :: 0 <= i < |names| ==> names[i] !in commands)
    && (forall i, j :: 0 <= i < j < |names| ==> names[i] != names[j])
  }

  /** A sequence of registrations succeeds exactly when no name repeats and
      none was taken before; then every name is bound to its own handler,
      and the earlier bindings survive. */
  lemma {:induction false} AddAllSpec<H>(commands: map<string, H>, names: seq<string>, handlers: seq<H>)
    requires |names| == |handlers|
    ensures AddAll(commands, names, handlers).Success? <==> Fresh(commands, names)
    ensures AddAll(commands, names, handlers).Success? ==>
      var r := AddAll(commands, names, handlers).value;
      && r.Keys == commands.Keys + (set i | 0 <= i < |names| :: names[i])
      && (forall i :: 0 <= i < |names| ==> r[names[i]] == handlers[i])
      && (forall n :: n in commands ==> r[n] == commands[n])
    decreases |names|
  {
    if |names| > 0 {
      var first := AddCommand(commands, names[0], handlers[0]);
      if first.Success? {
        var next := first.value;
        AddAllSpec(next, names[1..], handlers[1..]);
        if Fresh(commands, names) {
          assert Fresh(next, names[1..]) by {
            forall i | 0 <= i < |names[1..]|
              ensures names[1..][i] !in next
            {
              assert names[1..][i] == names[i + 1];
            }
          }
          var r := AddAll(next, names[1..], handlers[1..]).value;
          var rest := set i | 0 <= i < |names[1..]| :: names[1..][i];
          var all := set i | 0 <= i < |names| :: names[i];
          assert all == {names[0]} + rest by {
            forall n | n in all ensures n in {names[0]} + rest {
              var i :| 0 <= i < |names| && names[i] == n;
              if i > 0 { assert names[1..][i - 1] == n; }
            }
          }
          forall i | 0 <= i < |names|
            ensures r[names[i]] == handlers[i]
          {
            if i > 0 { assert names[1..][i - 1] == names[i]; }
          }
        }
      }
    }
  }

  /** Registering a name a second time fails with the duplicate error and
      the handler registered first stays bound to it. */
  lemma ReRegisterFails<H>(commands: map<string, H>, name: string, first: H, second: H)
    requires name !in commands
    ensures AddAll(commands, [name, name], [first, second]) == Failure(AlreadyRegistered(name))
    ensures AddCommand(commands, name, first).value[name] == first
  {
    var once := AddCommand(commands, name, first);
    assert AddAll(once.value, [name], [second]) == Failure(AlreadyRegistered(name));
  }
}
