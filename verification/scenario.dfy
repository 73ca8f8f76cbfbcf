/** Worked runs of the MIDI loop from its initial state. */
module Scenario {
  import opened Results
  import opened Text
  import opened Midi
  import ReleaseTable

  /** The menu-mode view of the chain of note 38. */
  lemma FirstOf38()
    ensures FirstPiece(Mapped(38), "&&") == "hold a"
    ensures !Contains(Mapped(38), "stick")
  {
    SplitAround("hold a", "&&", "hold y");
    NotContains(Mapped(38), "stick", 'k');
  }

  /** The menu-mode view of the release of note 38. */
  lemma FirstOfRelease38(note: int)
    requires note == 38
    ensures FirstPiece(ReleaseText(Mapped(note)), "&&") == "release a"
  {
    ReleaseTable.ReleaseChains(note);
    assert ReleaseTable.ReleaseFor[note] == "release a" + "&&" + "release y";
    SplitAround("release a", "&&", "release y");
  }

  /** The state after the first hit on note 38. */
  const Pressed38: State := State([Entry(38, ButtonHold)], true, 0, false)

  /** From the start, in menu mode, hitting the pad of note 38 presses A
      and holds the note for 40 ms. */
  lemma FirstHit()
    ensures Step(Start, NoteOn(38), 0) == StepResult(Pressed38, Some("hold a"))
  {
    FirstOf38();
  }

  /** Once the 40 ms of the first hit are up, the next idle iteration
      releases A and empties the buffer. */
  lemma ReleaseAfterHold(wait: int)
    requires wait >= ButtonHold
    ensures var r := Step(Pressed38, NoMessage, wait);
      && r.command == Some("release a")
      && r.state.held == []
  {
    var held := Countdown(Pressed38.held, wait);
    assert held == [Entry(38, ButtonHold - wait)];
    assert FirstExpired(held) == 0;
    FirstOfRelease38(held[0].note);
  }

  /** Before the hold time of the first hit is up an idle iteration only
      counts down. */
  lemma HeldUntilExpiry(wait: int)
    requires 0 <= wait < ButtonHold
    ensures var r := Step(Pressed38, NoMessage, wait);
      && r.command == None
      && r.state.held == [Entry(38, ButtonHold - wait)]
  {
  }

  /** The menu-mode view of the chain of note 42. */
  lemma FirstOf42()
    ensures FirstPiece(Mapped(42), "&&") == "hold l"
    ensures !Contains(Mapped(42), "stick")
  {
    SplitAround("hold l", "&&", "hold zl");
    NotContains(Mapped(42), "stick", 'k');
  }

  /** Hitting the pad of note 38 again while it is still held plays note
      42 instead: L is pressed and both notes are held. */
  lemma SecondHitFlams(wait: int)
    requires 0 <= wait
    ensures var r := Step(Pressed38, NoteOn(38), wait);
      && r.command == Some("hold l")
      && r.state.held == [Entry(38, ButtonHold - wait), Entry(FlamNote, ButtonHold)]
  {
    var held := Countdown(Pressed38.held, wait);
    assert held == [Entry(38, ButtonHold - wait)];
    assert Remap(38, held) == FlamNote;
    FirstOf42();
    assert React(Pressed38, NoteOn(38), wait).1 == Mapped(FlamNote);
  }
}
