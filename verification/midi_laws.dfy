/** What one iteration of the MIDI loop, and a run of them, guarantees:
    the hold buffer stays a dictionary, a pressed note is held for its hold
    time and released only once that time is up, the menu note toggles menu
    mode after enough presses, and the pedal alternates press and release. */
module MidiLaws {
  import opened Text
  import opened Midi
  import Dispatch

  /** The loop's invariant: the buffer holds each note once, and the menu
      counter never passes `MenuPresses`. */
  ghost predicate Inv(s: State) {
    Distinct(s.held) && s.menuCounter <= MenuPresses
  }

  lemma StartInv()
    ensures Inv(Start)
  {
  }

  /** Every iteration keeps the invariant. */
  lemma StepInv(s: State, e: Event, elapsed: int)
    requires Inv(s)
    ensures Inv(Step(s, e, elapsed).state)
  {
    ReactInv(s, e, elapsed);
    assert Step(s, e, elapsed).state == React(s, e, elapsed).0;
  }

  /** The state change of an iteration keeps the invariant. */
  lemma ReactInv(s: State, e: Event, elapsed: int)
    requires Inv(s)
    ensures Inv(React(s, e, elapsed).0)
  {
    var held := Countdown(s.held, elapsed);
    CountdownNotes(s.held, elapsed);
    match e {
      case NoteOn(n) =>
        var note := Remap(n, held);
        HoldSpec(held, note, HoldTime(Mapped(note)));
      case NoMessage =>
        var i := FirstExpired(held);
        if i < |held| {
          RemoveAtNotes(held, i);
        }
      case _ =>
    }
  }

  lemma {:induction false} RunInv(s: State, events: seq<(Event, int)>)
    requires Inv(s)
    ensures Inv(Run(s, events))
    decreases |events|
  {
    if |events| > 0 {
      StepInv(s, events[0].0, events[0].1);
      RunInv(Step(s, events[0].0, events[0].1).state, events[1..]);
    }
  }

  /** A note_on: the (remapped) note is held for the hold time of its chain,
      in its old place or at the end; every other entry is only counted
      down; the chain is dispatched exactly when the table has one for the
      note, shown as the new mode shows it; the menu bookkeeping follows
      `CountMenu`, and the pedal latch is untouched. */
  lemma NoteOnStep(s: State, n: int, elapsed: int)
    requires Distinct(s.held)
    ensures var held := Countdown(s.held, elapsed);
      var note := Remap(n, held);
      var r := Step(s, NoteOn(n), elapsed);
      && (forall m :: Holds(r.state.held, m) <==> Holds(s.held, m) || m == note)
      && Position(r.state.held, note) < |r.state.held|
      && r.state.held[Position(r.state.held, note)] == Entry(note, HoldTime(Mapped(note)))
      && (forall i :: 0 <= i < |s.held| && s.held[i].note != note ==>
            r.state.held[i] == Entry(s.held[i].note, s.held[i].left - elapsed))
      && (r.command.None? <==> Mapped(note) == "")
      && (r.command.Some? ==> r.command.value == Shown(r.state.menuMode, Mapped(note)))
      && (r.state.menuMode, r.state.menuCounter) == CountMenu(s.menuMode, s.menuCounter, note)
      && r.state.jump == s.jump
  {
    var held := Countdown(s.held, elapsed);
    var note := Remap(n, held);
    var r := Step(s, NoteOn(n), elapsed);
    CountdownNotes(s.held, elapsed);
    HoldSpec(held, note, HoldTime(Mapped(note)));
    assert Holds(r.state.held, note);
  }

  /** No message: when some entry's time is up, the first such entry (in
      buffer order) is dropped and its chain's release is dispatched;
      otherwise nothing is dropped or dispatched. Mode, counter and latch
      are untouched. */
  lemma IdleStep(s: State, elapsed: int)
    requires Distinct(s.held)
    ensures var held := Countdown(s.held, elapsed);
      var r := Step(s, NoMessage, elapsed);
      && r.state.menuMode == s.menuMode && r.state.menuCounter == s.menuCounter && r.state.jump == s.jump
      && ((forall i :: 0 <= i < |held| ==> held[i].left > 0) ==> r.state.held == held && r.command.None?)
      && (forall i :: 0 <= i < |held| && held[i].left <= 0 ==>
            var k := FirstExpired(held);
            && k <= i
            && r.state.held == RemoveAt(held, k)
            && (forall m :: Holds(r.state.held, m) <==> Holds(held, m) && m != held[k].note)
            && (r.command.None? <==> ReleaseText(Mapped(held[k].note)) == "")
            && (r.command.Some? ==> r.command.value == Shown(s.menuMode, ReleaseText(Mapped(held[k].note)))))
  {
    var held := Countdown(s.held, elapsed);
    CountdownNotes(s.held, elapsed);
    var k := FirstExpired(held);
    if k < |held| {
      IdleRelease(s, elapsed);
    }
  }

  /** The expiring case of `IdleStep`. */
  lemma IdleRelease(s: State, elapsed: int)
    requires Distinct(s.held)
    requires FirstExpired(Countdown(s.held, elapsed)) < |s.held|
    ensures var held := Countdown(s.held, elapsed);
      var k := FirstExpired(held);
      var r := Step(s, NoMessage, elapsed);
      && r.state.held == RemoveAt(held, k)
      && (forall m :: Holds(r.state.held, m) <==> Holds(held, m) && m != held[k].note)
      && (r.command.None? <==> ReleaseText(Mapped(held[k].note)) == "")
      && (r.command.Some? ==> r.command.value == Shown(s.menuMode, ReleaseText(Mapped(held[k].note))))
  {
    var held := Countdown(s.held, elapsed);
    CountdownNotes(s.held, elapsed);
    RemoveAtNotes(held, FirstExpired(held));
  }

  /** A note_on drops no note. */
  lemma NoteOnKeeps(s: State, n: int, elapsed: int)
    requires Distinct(s.held)
    ensures var r := Step(s, NoteOn(n), elapsed);
      && (forall m :: Holds(s.held, m) ==> Holds(r.state.held, m))
      && |r.state.held| >= |s.held|
  {
    var held := Countdown(s.held, elapsed);
    CountdownNotes(s.held, elapsed);
    HoldSpec(held, Remap(n, held), HoldTime(Mapped(Remap(n, held))));
  }

  /** An idle iteration drops at most one note, and only one whose time is
      up. */
  lemma IdleDrops(s: State, elapsed: int)
    requires Distinct(s.held)
    ensures var r := Step(s, NoMessage, elapsed);
      && (forall i :: 0 <= i < |s.held| && !Holds(r.state.held, s.held[i].note) ==> s.held[i].left <= elapsed)
      && |r.state.held| >= |s.held| - 1
  {
    var held := Countdown(s.held, elapsed);
    var r := Step(s, NoMessage, elapsed);
    var k := FirstExpired(held);
    if k < |held| {
      RemoveAtNotes(held, k);
      forall i | 0 <= i < |s.held| && !Holds(r.state.held, s.held[i].note)
        ensures s.held[i].left <= elapsed
      {
        assert held[i].note == s.held[i].note;
        assert Holds(held, s.held[i].note);
        assert held[k].note == held[i].note;
        assert i == k;
      }
    } else {
      forall i | 0 <= i < |s.held| ensures Holds(r.state.held, s.held[i].note) {
        assert held[i].note == s.held[i].note;
      }
    }
  }

  /** A note leaves the buffer only on an iteration without a message, and
      only once its time is up; at most one note leaves per iteration. */
  lemma ReleaseOnlyExpired(s: State, e: Event, elapsed: int)
    requires Distinct(s.held)
    ensures var r := Step(s, e, elapsed);
      && (forall i :: 0 <= i < |s.held| && !Holds(r.state.held, s.held[i].note) ==>
            e == NoMessage && s.held[i].left <= elapsed)
      && |r.state.held| >= |s.held| - 1
  {
    var r := Step(s, e, elapsed);
    match e {
      case NoteOn(n) =>
        NoteOnKeeps(s, n, elapsed);
        forall i | 0 <= i < |s.held| ensures Holds(r.state.held, s.held[i].note) {
          assert Holds(s.held, s.held[i].note);
        }
      case NoMessage =>
        IdleDrops(s, elapsed);
      case _ =>
        CountdownNotes(s.held, elapsed);
        forall i | 0 <= i < |s.held| ensures Holds(r.state.held, s.held[i].note) {
          assert Holds(s.held, s.held[i].note);
        }
    }
  }

  // ---------------------------------------------------------------------
  // Menu mode

  /** A run of menu-note presses. */
  predicate AllMenuPresses(events: seq<(Event, int)>) {
    forall i :: 0 <= i < |events| ==> events[i].0 == NoteOn(MenuNote)
  }

  /** Menu-note presses count up while the count stays within
      `MenuPresses`, leaving the mode alone. */
  lemma {:induction false} MenuPressesCount(s: State, events: seq<(Event, int)>)
    requires AllMenuPresses(events)
    requires s.menuCounter + |events| <= MenuPresses
    ensures Run(s, events).menuMode == s.menuMode
    ensures Run(s, events).menuCounter == s.menuCounter + |events|
    decreases |events|
  {
    if |events| > 0 {
      var next := Step(s, events[0].0, events[0].1).state;
      assert next.menuMode == s.menuMode && next.menuCounter == s.menuCounter + 1;
      MenuPressesCount(next, events[1..]);
    }
  }

  /** Starting from a count of `c`, exactly `MenuPresses + 1 - c` further
      presses of the menu note toggle menu mode and restart the count; from
      a fresh count that is eleven presses in a row. */
  lemma MenuToggle(s: State, events: seq<(Event, int)>)
    requires AllMenuPresses(events)
    requires s.menuCounter <= MenuPresses && |events| == MenuPresses + 1 - s.menuCounter
    ensures Run(s, events).menuMode == !s.menuMode
    ensures Run(s, events).menuCounter == 0
  {
    var front, last := events[..|events| - 1], events[|events| - 1..];
    assert events == front + last;
    MenuPressesCount(s, front);
    RunAppend(s, front, last);
    assert last[0].0 == NoteOn(MenuNote);
  }

  lemma {:induction false} RunAppend(s: State, a: seq<(Event, int)>, b: seq<(Event, int)>)
    ensures Run(s, a + b) == Run(Run(s, a), b)
    decreases |a|
  {
    if |a| == 0 {
      assert a + b == b;
    } else {
      assert (a + b)[0] == a[0];
      assert (a + b)[1..] == a[1..] + b;
      RunAppend(Step(s, a[0].0, a[0].1).state, a[1..], b);
    }
  }

  // ---------------------------------------------------------------------
  // The pedal

  /** A run of control-change messages. */
  predicate AllPedal(events: seq<(Event, int)>) {
    forall i :: 0 <= i < |events| ==> events[i].0.ControlChange?
  }

  /** The pedal chain sent at a given position of the alternation that
      starts from latch state `jump`: press when the latch is open. */
  function PedalChain(jump: bool, i: nat): string {
    if (i % 2 == 0) != jump then Mapped(PedalPress) else Mapped(PedalRelease)
  }

  /** Over any run of control changes the dispatched commands alternate
      between the press chain and the release chain, starting with the one
      the latch allows; the latch ends closed exactly when an odd number of
      them (counted from an open latch) were sent. Menu mode and the menu
      counter are left alone. */
  lemma {:induction false} PedalAlternates(s: State, events: seq<(Event, int)>)
    requires AllPedal(events)
    ensures var d := Dispatched(s, events);
      && (forall i :: 0 <= i < |d| ==> d[i] == Shown(s.menuMode, PedalChain(s.jump, i)))
      && Run(s, events).jump == (s.jump != (|d| % 2 == 1))
      && Run(s, events).menuMode == s.menuMode
      && Run(s, events).menuCounter == s.menuCounter
    decreases |events|
  {
    if |events| > 0 {
      var r := Step(s, events[0].0, events[0].1);
      PedalStep(s, events[0].0, events[0].1);
      PedalAlternates(r.state, events[1..]);
      var rest := Dispatched(r.state, events[1..]);
      var d := Dispatched(s, events);
      if r.command.Some? {
        assert d == [r.command.value] + rest;
        forall i | 0 <= i < |d| ensures d[i] == Shown(s.menuMode, PedalChain(s.jump, i)) {
          if i > 0 {
            assert d[i] == rest[i - 1];
            PedalShift(s.jump, i);
          }
        }
      } else {
        assert d == rest;
      }
    }
  }

  /** After a flip of the latch the alternation continues one position on. */
  lemma PedalShift(jump: bool, i: nat)
    requires i > 0
    ensures PedalChain(!jump, i - 1) == PedalChain(jump, i)
  {
    assert ((i - 1) % 2 == 0) != (i % 2 == 0);
  }

  /** One pedal message: the menu state stays; either the latch flips and
      the chain it allows is dispatched, or nothing happens. */
  lemma PedalStep(s: State, e: Event, elapsed: int)
    requires e.ControlChange?
    ensures var r := Step(s, e, elapsed);
      && r.state.menuMode == s.menuMode && r.state.menuCounter == s.menuCounter
      && (r.command.Some? ==> r.command.value == Shown(s.menuMode, PedalChain(s.jump, 0)) && r.state.jump == !s.jump)
      && (r.command.None? ==> r.state.jump == s.jump)
  {
    assert Mapped(PedalPress) != "" && Mapped(PedalRelease) != "";
  }

  // ---------------------------------------------------------------------
  // Release chains

  /** A note without a chain in the table releases nothing, so its expiry
      only drops it from the buffer. */
  lemma UnmappedReleaseEmpty(note: int)
    requires note !in MidiToKey
    ensures ReleaseText(Mapped(note)) == ""
  {
    ReleaseSingle("");
    ReplaceAbsent("", "hold", "release");
    NotContains("", "stick", 's');
  }

  // ---------------------------------------------------------------------
  // Dispatch of the command of an iteration

  /** An iteration dispatches nothing exactly when its raw command is
      empty; otherwise the plan is that of the command as the new mode
      shows it, and in menu mode that is a single clause, so at most one
      handler runs or one button is pushed. */
  lemma TickPlan(s: State, e: Event, elapsed: int, env: Dispatch.Env)
    ensures var (next, raw) := React(s, e, elapsed);
      var t := Tick(s, e, elapsed, env);
      && t.0 == next
      && (t.1.None? <==> raw == "")
      && (t.1.Some? ==> t.1.value == Dispatch.PlanChain(Shown(next.menuMode, raw), env))
      && (t.1.Some? && next.menuMode ==> |t.1.value.actions| + |t.1.value.push| <= 1)
  {
    var (next, raw) := React(s, e, elapsed);
    if raw != "" && next.menuMode {
      FirstPieceWhole(raw, "&&");
      Dispatch.PlanChainPush(FirstPiece(raw, "&&"), env);
    }
  }
}
