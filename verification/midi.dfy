/** The MIDI loop of `ControllerCLI.run`, one iteration at a time.

    Each iteration takes the time elapsed since the previous one (integer
    milliseconds here, where the program measures float seconds) and at most
    one MIDI message. It counts down the hold timers, turns a note press or a
    pedal movement into a command string through the fixed `midi_to_key`
    table, and, on an iteration without a message, releases the first note
    whose hold time has run out by synthesising its release command from the
    table text. The command string is then dispatched like a typed line. */
module Midi {
  import opened Results
  import opened Text
  import Dispatch

  /** `midi_to_key`: note (or controller value slot) to command chain,
      each chain written clause by clause. */
  const MidiToKey: map<int, string> := map[
    38 := "hold a" + "&&" + "hold y",
    48 := "hold x",
    42 := "hold l" + "&&" + "hold zl",
    36 := "hold r" + "&&" + "hold zr",
    51 := "stick l h 3200" + "&&" + "stick r h 3200",
    55 := "stick l h 848" + "&&" + "stick r h 848",
    45 := "stick l up" + "&&" + "stick r up",
    41 := "stick l down" + "&&" + "stick r down",
    6 := "hold b" + "&&" + "stick l center",
    5 := "release b" + "&&" + "stick l center",
    7 := "stick l center"
  ]

  /** `midi_to_key.get(note, "")`: the table's chain, and "" exactly for
      a note the table lacks, since every chain of the table is non-empty. */
  function Mapped(note: int): (r: string)
    ensures r != "" <==> note in MidiToKey
    ensures note in MidiToKey ==> r == MidiToKey[note]
  {
    if note in MidiToKey then MidiToKey[note] else ""
  }

  /** Hold time of a button chain: 0.04 s. */
  const ButtonHold: int := 40
  /** Hold time of a chain that mentions a stick: 0.3 s. */
  const StickHold: int := 300
  /** The note whose repeated presses toggle menu mode. */
  const MenuNote: int := 48
  /** Presses of `MenuNote` after which the next one toggles menu mode. */
  const MenuPresses: nat := 10
  /** Control-change values above this press the pedal command. */
  const PedalThreshold: int := 64
  /** Table slots of the pedal press and release commands. */
  const PedalPress: int := 6
  const PedalRelease: int := 5
  /** Notes 46, and 38 pressed again while held, play as this note. */
  const FlamNote: int := 42

  /** One `arlBuffer` entry: a held note and its remaining hold time (ms). */
  datatype Entry = Entry(note: int, left: int)

  /** The loop's state: the hold buffer in dictionary order, menu mode, the
      count of consecutive menu-note presses, and the pedal latch. */
  datatype State = State(held: seq<Entry>, menuMode: bool, menuCounter: nat, jump: bool)

  /** State before the first iteration. */
  const Start: State := State([], true, 0, false)

  /** What `inport.poll()` returned: a note_on, a control_change, a message
      of any other type, or nothing. */
  datatype Event = NoteOn(note: int) | ControlChange(value: int) | OtherMessage | NoMessage

  // ---------------------------------------------------------------------
  // The hold buffer

  /** `note in arlBuffer.keys()`. */
  predicate Holds(held: seq<Entry>, note: int) {
    exists i :: 0 <= i < |held| && held[i].note == note
  }

  /** A dictionary has each key once. */
  ghost predicate Distinct(held: seq<Entry>) {
    forall i, j :: 0 <= i < j < |held| ==> held[i].note != held[j].note
  }

  /** Every timer counts down by the elapsed time; order and notes stay. */
  function Countdown(held: seq<Entry>, elapsed: int): (r: seq<Entry>)
    ensures |r| == |held|
    ensures forall i :: 0 <= i < |held| ==> r[i].note == held[i].note && r[i].left == held[i].left - elapsed
  {
    if |held| == 0 then []
    else [Entry(held[0].note, held[0].left - elapsed)] + Countdown(held[1..], elapsed)
  }

  lemma CountdownNotes(held: seq<Entry>, elapsed: int)
    ensures forall n :: Holds(Countdown(held, elapsed), n) <==> Holds(held, n)
    ensures Distinct(held) ==> Distinct(Countdown(held, elapsed))
  {
    var r := Countdown(held, elapsed);
    forall n | Holds(held, n) ensures Holds(r, n) {
      var i :| 0 <= i < |held| && held[i].note == n;
      assert r[i].note == n;
    }
  }

  /** Position of `note` in the buffer, or `|held|`. */
  function Position(held: seq<Entry>, note: int): (i: nat)
    ensures i <= |held|
    ensures i < |held| ==> held[i].note == note
    ensures forall j :: 0 <= j < i ==> held[j].note != note
  {
    if |held| == 0 || held[0].note == note then 0 else 1 + Position(held[1..], note)
  }

  /** `arlBuffer[note] = duration`: update in place, or append. */
  function Hold(held: seq<Entry>, note: int, duration: int): (r: seq<Entry>)
    ensures Holds(r, note)
    ensures |r| == if Holds(held, note) then |held| else |held| + 1
    ensures forall j :: 0 <= j < |held| && held[j].note != note ==> r[j] == held[j]
  {
    var i := Position(held, note);
    var r := if i < |held| then held[i := Entry(note, duration)] else held + [Entry(note, duration)];
    assert r[i].note == note;
    r
  }

  /** Setting a hold time refreshes an entry of the note where it is, or
      appends one; every other entry keeps its place and time, and each note
      stays in the buffer once. */
  lemma HoldSpec(held: seq<Entry>, note: int, duration: int)
    requires Distinct(held)
    ensures var r := Hold(held, note, duration);
      && Distinct(r)
      && |r| == (if Holds(held, note) then |held| else |held| + 1)
      && (forall i :: 0 <= i < |held| ==> r[i] == (if held[i].note == note then Entry(note, duration) else held[i]))
      && (!Holds(held, note) ==> r[|held|] == Entry(note, duration))
      && (forall n :: Holds(r, n) <==> Holds(held, n) || n == note)
  {
    var r := Hold(held, note, duration);
    var p := Position(held, note);
    if p < |held| {
      forall n | Holds(r, n) ensures Holds(held, n) || n == note {
        var i :| 0 <= i < |r| && r[i].note == n;
        if i != p { assert held[i].note == n; }
      }
      forall n | Holds(held, n) ensures Holds(r, n) {
        var i :| 0 <= i < |held| && held[i].note == n;
        assert r[i].note == n;
      }
    } else {
      forall n | Holds(r, n) ensures Holds(held, n) || n == note {
        var i :| 0 <= i < |r| && r[i].note == n;
        if i < |held| { assert held[i].note == n; }
      }
      forall n | Holds(held, n) ensures Holds(r, n) {
        var i :| 0 <= i < |held| && held[i].note == n;
        assert r[i].note == n;
      }
      assert r[|held|].note == note;
    }
  }

  /** Index of the first entry whose time is up, or `|held|`. */
  function FirstExpired(held: seq<Entry>): (i: nat)
    ensures i <= |held|
    ensures i < |held| ==> held[i].left <= 0
    ensures forall j :: 0 <= j < i ==> held[j].left > 0
  {
    if |held| == 0 || held[0].left <= 0 then 0 else 1 + FirstExpired(held[1..])
  }

  /** `del arlBuffer[k]` for the entry at index `i`. */
  function RemoveAt(held: seq<Entry>, i: nat): (r: seq<Entry>)
    requires i < |held|
    ensures |r| == |held| - 1
    ensures forall j :: 0 <= j < i ==> r[j] == held[j]
    ensures forall j :: i < j < |held| ==> r[j - 1] == held[j]
  {
    held[..i] + held[i + 1..]
  }

  lemma RemoveAtNotes(held: seq<Entry>, i: nat)
    requires i < |held| && Distinct(held)
    ensures Distinct(RemoveAt(held, i))
    ensures forall n :: Holds(RemoveAt(held, i), n) <==> Holds(held, n) && n != held[i].note
  {
    var r := RemoveAt(held, i);
    forall a, b | 0 <= a < b < |r| ensures r[a].note != r[b].note {
      var a' := if a < i then a else a + 1;
      var b' := if b < i then b else b + 1;
      assert r[a] == held[a'] && r[b] == held[b'];
    }
    forall n | Holds(r, n) ensures Holds(held, n) && n != held[i].note {
      var j :| 0 <= j < |r| && r[j].note == n;
      if j < i { assert r[j] == held[j]; } else { assert r[j] == held[j + 1]; }
    }
    forall n | Holds(held, n) && n != held[i].note ensures Holds(r, n) {
      var j :| 0 <= j < |held| && held[j].note == n;
      if j < i { assert r[j] == held[j]; } else { assert r[j - 1] == held[j]; }
    }
  }

  // ---------------------------------------------------------------------
  // Translating one message

  /** Note 46 always, and note 38 when 38 is already in the buffer (even
      with its time up), play as note 42; every other note as itself. */
  function Remap(note: int, held: seq<Entry>): (n: int)
    ensures note == 46 ==> n == FlamNote
    ensures note == 38 ==> (n == FlamNote <==> Holds(held, 38)) && (n == 38 <==> !Holds(held, 38))
    ensures note != 46 && note != 38 ==> n == note
  {
    if note == 46 || (note == 38 && Holds(held, 38)) then FlamNote else note
  }

  /** Hold time for a pressed chain: longer when it mentions a stick. */
  function HoldTime(command: string): (t: int)
    ensures t == StickHold <==> Contains(command, "stick")
    ensures t == ButtonHold <==> !Contains(command, "stick")
  {
    if Contains(command, "stick") then StickHold else ButtonHold
  }

  /** Menu-mode bookkeeping for one note_on: the menu note counts up, the
      press after `MenuPresses` counted ones toggles the mode and restarts
      the count, and any other note restarts it. */
  function CountMenu(mode: bool, counter: nat, note: int): (r: (bool, nat))
    ensures counter <= MenuPresses ==> r.1 <= MenuPresses
    ensures note != MenuNote ==> r == (mode, 0)
    ensures note == MenuNote && counter < MenuPresses ==> r == (mode, counter + 1)
    ensures note == MenuNote && counter >= MenuPresses ==> r == (!mode, 0)
  {
    if note == MenuNote then
      if counter + 1 > MenuPresses then (!mode, 0) else (mode, counter + 1)
    else (mode, 0)
  }

  /** The pedal latch: a value above the threshold presses once until a
      value at or below it releases; other values emit nothing. */
  function Latch(jump: bool, value: int): (r: (bool, string))
    ensures r.1 == Mapped(PedalPress) <==> value > PedalThreshold && !jump
    ensures r.1 == Mapped(PedalRelease) <==> value <= PedalThreshold && jump
    ensures r.1 == "" <==> (value > PedalThreshold) == jump
    ensures r.0 == (value > PedalThreshold)  || r.1 == ""
    ensures r.1 == "" ==> r.0 == jump
  {
    if value > PedalThreshold && !jump then (true, Mapped(PedalPress))
    else if value <= PedalThreshold && jump then (false, Mapped(PedalRelease))
    else (jump, "")
  }

  // ---------------------------------------------------------------------
  // Release synthesis by text substitution

  /** Number of occurrences of `c` in `s`. */
  function CountChar(s: string, c: char): nat {
    if |s| == 0 then 0 else CountChar(s[..|s| - 1], c) + (if s[|s| - 1] == c then 1 else 0)
  }

  lemma CountStep(s: string, c: char, k: nat)
    requires k < |s|
    ensures CountChar(s[..k + 1], c) == CountChar(s[..k], c) + (if s[k] == c then 1 else 0)
  {
    assert s[..k + 1][..k] == s[..k];
  }

  lemma {:induction false} CountGap(s: string, c: char, a: nat, b: nat)
    requires a <= b <= |s|
    requires forall m :: a <= m < b ==> s[m] != c
    ensures CountChar(s[..b], c) == CountChar(s[..a], c)
    decreases b - a
  {
    if a < b {
      CountGap(s, c, a, b - 1);
      CountStep(s, c, b - 1);
    }
  }

  lemma {:induction false} CountGrows(s: string, c: char, a: nat, b: nat)
    requires a <= b <= |s|
    ensures CountChar(s[..a], c) <= CountChar(s[..b], c)
    decreases b - a
  {
    if a < b {
      CountGrows(s, c, a, b - 1);
      CountStep(s, c, b - 1);
    }
  }

  /** `clause.split(" ", 2)[-1]`: what follows the second space, or the
      first when there is one, or the whole clause. */
  function ArgTail(clause: string): (r: string)
    ensures |r| <= |clause| && clause[|clause| - |r|..] == r
    ensures CountChar(clause[..|clause| - |r|], ' ') == if CountChar(clause, ' ') < 2 then CountChar(clause, ' ') else 2
    ensures |r| < |clause| ==> clause[|clause| - |r| - 1] == ' '
  {
    var p1 := IndexOf(clause, ' ', 0);
    assert clause[..|clause|] == clause;
    if p1 == |clause| then
      CountGap(clause, ' ', 0, |clause|);
      clause
    else
      var p2 := IndexOf(clause, ' ', p1 + 1);
      CountGap(clause, ' ', 0, p1);
      CountStep(clause, ' ', p1);
      CountGap(clause, ' ', p1 + 1, p2);
      if p2 == |clause| then
        clause[p1 + 1..]
      else
        CountStep(clause, ' ', p2);
        CountGrows(clause, ' ', p2 + 1, |clause|);
        clause[p2 + 1..]
  }

  /** A clause of two space-free words and a rest: the tail is the rest. */
  lemma ArgTailWords(w1: string, w2: string, rest: string)
    requires ' ' !in w1 && ' ' !in w2
    ensures ArgTail(w1 + " " + w2 + " " + rest) == rest
  {
    var s := w1 + " " + w2 + " " + rest;
    var p1 := IndexOf(s, ' ', 0);
    assert s[|w1|] == ' ';
    assert p1 == |w1|;
    var p2 := IndexOf(s, ' ', p1 + 1);
    assert s[|w1| + 1 + |w2|] == ' ';
    assert p2 == |w1| + 1 + |w2|;
    assert s[p2 + 1..] == rest;
  }

  /** One pass of the loop over the pressed chain's clauses: a clause that
      mentions "stick" has its argument tail replaced by "center"
      everywhere in the text. */
  function Recentre(text: string, clause: string): string {
    if Contains(clause, "stick") then Replace(text, ArgTail(clause), "center") else text
  }

  /** The whole loop over the clauses. */
  function CenterSticks(text: string, clauses: seq<string>): string
    decreases |clauses|
  {
    if |clauses| == 0 then text else CenterSticks(Recentre(text, clauses[0]), clauses[1..])
  }

  /** No clause mentions "stick": nothing is centred. */
  lemma {:induction false} CenterSticksNone(text: string, clauses: seq<string>)
    requires forall n :: 0 <= n < |clauses| ==> !Contains(clauses[n], "stick")
    ensures CenterSticks(text, clauses) == text
    decreases |clauses|
  {
    if |clauses| > 0 {
      CenterSticksNone(text, clauses[1..]);
    }
  }

  /** Release chain for a pressed chain: "hold" becomes "release", then
      stick arguments become "center". */
  function ReleaseText(pressed: string): string {
    CenterSticks(Replace(pressed, "hold", "release"), Split(pressed, "&&"))
  }

  /** A chain that mentions no stick is only renamed: its release is the
      chain with every "hold" turned into "release". */
  lemma ReleaseWithoutSticks(pressed: string)
    requires !Contains(pressed, "stick")
    ensures ReleaseText(pressed) == Replace(pressed, "hold", "release")
  {
    SplitKeepsAbsent(pressed, "&&", "stick");
    CenterSticksNone(Replace(pressed, "hold", "release"), Split(pressed, "&&"));
  }

  /** The release of a chain of two clauses, clause by clause. */
  lemma ReleasePair(a: string, b: string)
    requires '&' !in a && '&' !in b
    ensures ReleaseText(a + "&&" + b) ==
      Recentre(Recentre(Replace(a, "hold", "release") + "&&" + Replace(b, "hold", "release"), a), b)
  {
    var t := Replace(a, "hold", "release") + "&&" + Replace(b, "hold", "release");
    SplitAround(a, "&&", b);
    SplitAlone(b, "&&");
    assert Split(a + "&&" + b, "&&") == [a, b];
    ReplaceAround(a, "&&", b, "hold", "release");
    assert ReleaseText(a + "&&" + b) == CenterSticks(t, [a, b]);
    assert [a, b][1..] == [b];
    assert CenterSticks(t, [a, b]) == CenterSticks(Recentre(t, a), [b]);
    assert [b][1..] == [];
  }

  /** The release of a chain of one clause. */
  lemma ReleaseSingle(a: string)
    requires '&' !in a
    ensures ReleaseText(a) == Recentre(Replace(a, "hold", "release"), a)
  {
    SplitAlone(a, "&&");
    var t := Replace(a, "hold", "release");
    assert ReleaseText(a) == CenterSticks(t, [a]);
    assert [a][1..] == [];
    assert CenterSticks(t, [a]) == CenterSticks(Recentre(t, a), []);
  }

  // ---------------------------------------------------------------------
  // One iteration

  /** The state after lines 197-231 and the raw command string ("" for
      none), before menu mode truncates it. */
  function React(s: State, e: Event, elapsed: int): (r: (State, string))
    ensures !e.ControlChange? ==> r.0.jump == s.jump
    ensures !e.NoteOn? ==> r.0.menuMode == s.menuMode && r.0.menuCounter == s.menuCounter
    ensures !e.NoMessage? ==> |r.0.held| >= |s.held|
    ensures e.NoMessage? ==> |s.held| - 1 <= |r.0.held| <= |s.held|
    ensures e.NoteOn? ==> |r.0.held| <= |s.held| + 1
    ensures e.OtherMessage? ==> r.1 == ""
    ensures e.ControlChange? || e.OtherMessage? ==> r.0.held == Countdown(s.held, elapsed)
    ensures e.NoMessage? ==>
      var held := Countdown(s.held, elapsed);
      r.0.held == held || exists k :: 0 <= k < |held| && held[k].left <= 0 && r.0.held == RemoveAt(held, k)
  {
    var held := Countdown(s.held, elapsed);
    match e
    case NoteOn(n) =>
      var note := Remap(n, held);
      var command := Mapped(note);
      var menu := CountMenu(s.menuMode, s.menuCounter, note);
      (State(Hold(held, note, HoldTime(command)), menu.0, menu.1, s.jump), command)
    case ControlChange(v) =>
      var latch := Latch(s.jump, v);
      (s.(held := held, jump := latch.0), latch.1)
    case OtherMessage =>
      (s.(held := held), "")
    case NoMessage =>
      var i := FirstExpired(held);
      if i == |held| then (s.(held := held), "")
      else
        assert held[i].left <= 0;
        (s.(held := RemoveAt(held, i)), ReleaseText(Mapped(held[i].note)))
  }

  /** Result of one iteration: the next state and the command dispatched,
      if any. */
  datatype StepResult = StepResult(state: State, command: Option<string>)

  /** What is dispatched of a chain: in menu mode only its first clause,
      which is the whole chain when it holds no "&&" and otherwise the text
      before its leftmost "&&". */
  function Shown(menuMode: bool, raw: string): (r: string)
    ensures r <= raw
    ensures menuMode ==> Split(r, "&&") == [r]
    ensures menuMode && !Contains(raw, "&&") ==> r == raw
    ensures menuMode && Contains(raw, "&&") ==> r + "&&" <= raw && EndsAtFirst(r, "&&")
    ensures !menuMode ==> r == raw
  {
    if menuMode then
      SplitJoin(raw, "&&");
      JoinHead(Split(raw, "&&"), "&&");
      FirstPieceWhole(raw, "&&");
      FirstPieceSpec(raw, "&&");
      FirstPiece(raw, "&&")
    else raw
  }

  /** One iteration of the loop: an empty command means sleep and go on;
      otherwise the command is dispatched as the mode after the message
      shows it. */
  function Step(s: State, e: Event, elapsed: int): (r: StepResult)
    ensures r.command.None? <==> React(s, e, elapsed).1 == ""
    ensures r.command.Some? ==> r.command.value <= React(s, e, elapsed).1
    ensures r.command.Some? && r.state.menuMode ==> Split(r.command.value, "&&") == [r.command.value]
    ensures r.command.Some? && r.state.menuMode && !Contains(React(s, e, elapsed).1, "&&") ==>
      r.command.value == React(s, e, elapsed).1
    ensures r.command.Some? && r.state.menuMode && Contains(React(s, e, elapsed).1, "&&") ==>
      r.command.value + "&&" <= React(s, e, elapsed).1 && EndsAtFirst(r.command.value, "&&")
    ensures r.command.Some? && !r.state.menuMode ==> r.command.value == React(s, e, elapsed).1
  {
    var (next, raw) := React(s, e, elapsed);
    if raw == "" then StepResult(next, None)
    else StepResult(next, Some(Shown(next.menuMode, raw)))
  }

  /** An iteration followed by the dispatch of its command. */
  function Tick(s: State, e: Event, elapsed: int, env: Dispatch.Env): (t: (State, Option<Dispatch.Plan>))
    ensures t.1.None? <==> React(s, e, elapsed).1 == ""
    ensures t.1.Some? && t.0.menuMode ==> |t.1.value.actions| + |t.1.value.push| <= 1
  {
    var r := Step(s, e, elapsed);
    if r.command.None? then (r.state, None)
    else
      Dispatch.PlanChainPush(r.command.value, env);
      (r.state, Some(Dispatch.PlanChain(r.command.value, env)))
  }

  /** Iterations in sequence; each event comes with the time elapsed since
      the previous iteration. */
  function Run(s: State, events: seq<(Event, int)>): (r: State)
    ensures |r.held| <= |s.held| + |events|
    ensures (forall i :: 0 <= i < |events| ==> !events[i].0.ControlChange?) ==> r.jump == s.jump
    ensures (forall i :: 0 <= i < |events| ==> !events[i].0.NoteOn?) ==>
      r.menuMode == s.menuMode && r.menuCounter == s.menuCounter
    decreases |events|
  {
    if |events| == 0 then s
    else
      assert forall i :: 0 <= i < |events[1..]| ==> events[1..][i] == events[i + 1];
      Run(Step(s, events[0].0, events[0].1).state, events[1..])
  }

  /** The commands dispatched over a run, in order. */
  function Dispatched(s: State, events: seq<(Event, int)>): seq<string>
    decreases |events|
  {
    if |events| == 0 then []
    else
      var r := Step(s, events[0].0, events[0].1);
      (if r.command.Some? then [r.command.value] else []) + Dispatched(r.state, events[1..])
  }
}
