/** Chain dispatch, shared by the text loop of `CLI.run` and the MIDI loop
    of `ControllerCLI.run`: a line is split at "&&" into clauses, each
    clause is tokenised, and its first word is resolved, in this order, as
    the literal `exit`, a built-in `cmd_<name>` method, a registered command,
    an available button name, or an unknown name.

    Handlers are not run here: the plan lists the calls in order. A handler
    that raises only has its message printed, so no handler outcome can
    change the plan; the plan therefore does not depend on one. */
module Dispatch {
  import opened Results
  import opened Text
  import Stick

  /** What a loop can resolve names against: the names `<name>` that have a
      `cmd_<name>` method, the registered command names, and the buttons the
      controller reports as available (empty for the plain text loop). */
  datatype Env = Env(methods: set<string>, commands: set<string>, buttons: set<string>)

  /** The built-in methods of `ControllerCLI`: `cmd_help` and `cmd_stick`. */
  const ControllerMethods: set<string> := {"help", "stick"}

  /** A handler call, or the "not found" message, in chain order. */
  datatype Action =
    | RunMethod(name: string, args: seq<string>)
    | RunCommand(name: string, args: seq<string>)
    | NotFound(name: string)

  /** How one clause resolves. `NoWords` is a clause with no token, whose
      unpacking `cmd, *args = ...` raises out of the loop. */
  datatype Kind = NoWords | Exit | Invoke(action: Action) | Button(name: string)

  /** How processing of a chain ends. */
  datatype Ending = Completed | ExitRequested | EmptyClause

  /** The handler calls of a chain in order, the buttons handed to one
      `button_push` call (empty: no call), and how the chain ended. */
  datatype Plan = Plan(actions: seq<Action>, push: seq<string>, ending: Ending)

  /** Resolution of one clause, by the priority exit > method > registered
      command > available button > not found. */
  function Classify(clause: string, env: Env): (k: Kind)
    ensures k == NoWords <==> ShellBlank(clause)
    ensures !ShellBlank(clause) ==> var w := Words(clause);
      && (k == Exit <==> w[0] == "exit")
      && (k == Invoke(RunMethod(w[0], w[1..])) <==> w[0] != "exit" && w[0] in env.methods)
      && (k == Invoke(RunCommand(w[0], w[1..])) <==>
            w[0] != "exit" && w[0] !in env.methods && w[0] in env.commands)
      && (k == Button(w[0]) <==>
            w[0] != "exit" && w[0] !in env.methods && w[0] !in env.commands && w[0] in env.buttons)
      && (k == Invoke(NotFound(w[0])) <==>
            w[0] != "exit" && w[0] !in env.methods && w[0] !in env.commands && w[0] !in env.buttons)
  {
    var w := Words(clause);
    if |w| == 0 then NoWords
    else
      var cmd := w[0];
      if cmd == "exit" then Exit
      else if cmd in env.methods then Invoke(RunMethod(cmd, w[1..]))
      else if cmd in env.commands then Invoke(RunCommand(cmd, w[1..]))
      else if cmd in env.buttons then Button(cmd)
      else Invoke(NotFound(cmd))
  }

  /** Result of walking the clauses: calls made, buttons collected, ending. */
  datatype Walked = Walked(actions: seq<Action>, buttons: seq<string>, ending: Ending)

  /** The loop over the clauses: stops at `exit` or at a clause without
      words, runs handlers in order and collects button names. */
  function Walk(clauses: seq<string>, env: Env): Walked
    decreases |clauses|
  {
    if |clauses| == 0 then Walked([], [], Completed)
    else
      match Classify(clauses[0], env)
      case NoWords => Walked([], [], EmptyClause)
      case Exit => Walked([], [], ExitRequested)
      case Invoke(a) =>
        var rest := Walk(clauses[1..], env);
        rest.(actions := [a] + rest.actions)
      case Button(b) =>
        var rest := Walk(clauses[1..], env);
        rest.(buttons := [b] + rest.buttons)
  }

  /** Dispatch of one non-empty command line: buttons are pushed once,
      after the chain, and only when the chain ran to its end. */
  function PlanChain(input: string, env: Env): (p: Plan) {
    var w := Walk(Split(input, "&&"), env);
    Plan(w.actions, if w.ending == Completed then w.buttons else [], w.ending)
  }

  // ---------------------------------------------------------------------
  // A reference description of the plan, clause by clause

  /** The resolution of every clause, as if none stopped the loop. */
  function Kinds(clauses: seq<string>, env: Env): (ks: seq<Kind>)
    ensures |ks| == |clauses|
    decreases |clauses|
  {
    if |clauses| == 0 then [] else [Classify(clauses[0], env)] + Kinds(clauses[1..], env)
  }

  predicate Stops(k: Kind) {
    k == NoWords || k == Exit
  }

  /** Index of the first clause that stops the loop, or the clause count. */
  function StopIndex(ks: seq<Kind>): (n: nat)
    ensures n <= |ks|
    ensures forall i :: 0 <= i < n ==> !Stops(ks[i])
    ensures n < |ks| ==> Stops(ks[n])
  {
    if |ks| == 0 || Stops(ks[0]) then 0 else 1 + StopIndex(ks[1..])
  }

  /** The handler calls among some resolved clauses, in order. */
  function Calls(ks: seq<Kind>): seq<Action> {
    if |ks| == 0 then []
    else (if ks[0].Invoke? then [ks[0].action] else []) + Calls(ks[1..])
  }

  /** The button names among some resolved clauses, in order. */
  function ButtonNames(ks: seq<Kind>): seq<string> {
    if |ks| == 0 then []
    else (if ks[0].Button? then [ks[0].name] else []) + ButtonNames(ks[1..])
  }

  /** The ending that the stopping clause (if any) dictates. */
  function EndingAt(ks: seq<Kind>, n: nat): Ending
    requires n <= |ks|
  {
    if n == |ks| then Completed else if ks[n] == Exit then ExitRequested else EmptyClause
  }

  lemma CallsCons(k: Kind, rest: seq<Kind>)
    ensures Calls([k] + rest) == (if k.Invoke? then [k.action] else []) + Calls(rest)
    ensures ButtonNames([k] + rest) == (if k.Button? then [k.name] else []) + ButtonNames(rest)
  {
    assert ([k] + rest)[0] == k && ([k] + rest)[1..] == rest;
  }

  /** One clause that does not stop the loop adds its call or button in
      front of those of the rest. */
  lemma WalkStep(clauses: seq<string>, env: Env)
    requires |clauses| > 0 && !Stops(Classify(clauses[0], env))
    ensures var k := Classify(clauses[0], env);
      && Walk(clauses, env).actions == (if k.Invoke? then [k.action] else []) + Walk(clauses[1..], env).actions
      && Walk(clauses, env).buttons == (if k.Button? then [k.name] else []) + Walk(clauses[1..], env).buttons
      && Walk(clauses, env).ending == Walk(clauses[1..], env).ending
  {
  }

  lemma {:induction false} WalkIsReference(clauses: seq<string>, env: Env)
    ensures var ks := Kinds(clauses, env);
      var n := StopIndex(ks);
      && Walk(clauses, env).actions == Calls(ks[..n])
      && Walk(clauses, env).buttons == ButtonNames(ks[..n])
      && Walk(clauses, env).ending == EndingAt(ks, n)
    decreases |clauses|
  {
    var ks := Kinds(clauses, env);
    if |clauses| > 0 && !Stops(ks[0]) {
      WalkIsReference(clauses[1..], env);
      WalkStep(clauses, env);
      var tail := Kinds(clauses[1..], env);
      assert ks == [ks[0]] + tail && ks[1..] == tail;
      var n := StopIndex(ks);
      assert n == 1 + StopIndex(tail);
      assert ks[..n] == [ks[0]] + tail[..n - 1];
      CallsCons(ks[0], tail[..n - 1]);
    }
  }

  /** The plan of a chain, described without the loop: the calls of the
      clauses before the first stopping clause in order; the buttons among
      them pushed only when no clause stopped the chain; and the ending
      named by the stopping clause. */
  lemma PlanChainIsReference(input: string, env: Env)
    ensures var ks := Kinds(Split(input, "&&"), env);
      var n := StopIndex(ks);
      && PlanChain(input, env).actions == Calls(ks[..n])
      && PlanChain(input, env).push == (if n == |ks| then ButtonNames(ks) else [])
      && PlanChain(input, env).ending == EndingAt(ks, n)
  {
    var ks := Kinds(Split(input, "&&"), env);
    WalkIsReference(Split(input, "&&"), env);
    assert ks[..|ks|] == ks;
  }

  lemma {:induction false} WalkBounds(clauses: seq<string>, env: Env)
    ensures forall b :: b in Walk(clauses, env).buttons ==>
      b in env.buttons && b !in env.methods && b !in env.commands && b != "exit"
    ensures |Walk(clauses, env).actions| + |Walk(clauses, env).buttons| <= |clauses|
    decreases |clauses|
  {
    if |clauses| > 0 {
      WalkBounds(clauses[1..], env);
      var w := Words(clauses[0]);
      if !ShellBlank(clauses[0]) {
        assert Classify(clauses[0], env).Button? ==> Classify(clauses[0], env) == Button(w[0]);
      }
    }
  }

  /** Every pushed name is an available button that is neither `exit` nor a
      method or command name; a push happens only on a completed chain; and
      at most one call or button comes from each clause. */
  lemma PlanChainPush(input: string, env: Env)
    ensures forall b :: b in PlanChain(input, env).push ==>
      b in env.buttons && b !in env.methods && b !in env.commands && b != "exit"
    ensures |PlanChain(input, env).push| > 0 ==> PlanChain(input, env).ending == Completed
    ensures |PlanChain(input, env).actions| + |PlanChain(input, env).push| <= |Split(input, "&&")|
  {
    WalkBounds(Split(input, "&&"), env);
  }

  lemma {:induction false} WalkNoButtons(clauses: seq<string>, env: Env)
    requires env.buttons == {}
    ensures Walk(clauses, env).buttons == []
    decreases |clauses|
  {
    if |clauses| > 0 {
      WalkNoButtons(clauses[1..], env);
    }
  }

  /** `CLI.run`, one line: an empty line is skipped; otherwise the chain is
      dispatched without the button branch. */
  function TextCommand(input: string, methods: set<string>, commands: set<string>): (p: Option<Plan>)
    ensures p.None? <==> input == []
    ensures p.Some? ==> p.value.push == []
  {
    if input == [] then None
    else
      WalkNoButtons(Split(input, "&&"), Env(methods, commands, {}));
      Some(PlanChain(input, Env(methods, commands, {})))
  }

  /** In the controller's loop a clause starting with "stick" calls
      `cmd_stick` with the remaining words, even when a registered command
      or an available button has the same name: methods are looked up
      first. */
  lemma ControllerStickClause(clause: string, env: Env)
    requires env.methods == ControllerMethods
    requires !ShellBlank(clause) && Words(clause)[0] == "stick"
    ensures Classify(clause, env) == Invoke(RunMethod("stick", Words(clause)[1..]))
  {
  }

  // ---------------------------------------------------------------------
  // Effect of a plan on the sticks

  /** One call run against the sticks: a `stick` call that fails only has
      its error printed and leaves the sticks as they were; help,
      registered commands and "not found" do not touch them. */
  function Apply(sticks: Stick.Sticks, action: Action): Stick.Sticks {
    match action
    case RunMethod(name, args) =>
      if name == "stick" then
        match Stick.StickCommand(sticks, args)
        case Success(s) => s
        case Failure(_) => sticks
      else sticks
    case _ => sticks
  }

  /** The calls of a plan run in order against the sticks. */
  function Execute(sticks: Stick.Sticks, actions: seq<Action>): Stick.Sticks
    decreases |actions|
  {
    if |actions| == 0 then sticks else Execute(Apply(sticks, actions[0]), actions[1..])
  }

  lemma {:induction false} ExecuteAppend(sticks: Stick.Sticks, a: seq<Action>, b: seq<Action>)
    ensures Execute(sticks, a + b) == Execute(Execute(sticks, a), b)
    decreases |a|
  {
    if |a| == 0 {
      assert a + b == b;
    } else {
      assert (a + b)[0] == a[0];
      assert (a + b)[1..] == a[1..] + b;
      ExecuteAppend(Apply(sticks, a[0]), a[1..], b);
    }
  }

  /** A malformed `stick` clause in a chain does not stop the rest: the
      sticks end up exactly as if that clause had been left out. */
  lemma FailingStickSkipped(sticks: Stick.Sticks, before: seq<Action>, args: seq<string>, after: seq<Action>)
    requires Stick.StickCommand(Execute(sticks, before), args).Failure?
    ensures Execute(sticks, before + [RunMethod("stick", args)] + after) == Execute(sticks, before + after)
  {
    var mid := Execute(sticks, before);
    ExecuteAppend(sticks, before + [RunMethod("stick", args)], after);
    ExecuteAppend(sticks, before, [RunMethod("stick", args)]);
    ExecuteAppend(sticks, before, after);
    assert Execute(mid, [RunMethod("stick", args)]) == Execute(mid, []);
  }
}
