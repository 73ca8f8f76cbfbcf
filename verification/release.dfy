/** The release chains that the MIDI loop synthesises for the fixed
    `midi_to_key` table, worked out clause by clause. */
module ReleaseTable {
  import opened Text
  import opened Midi

  /** A "hold" clause turns into the matching "release" clause and is not
      a stick clause. */
  lemma HoldClause(button: string)
    requires 'h' !in button && 'k' !in button
    ensures Replace("hold " + button, "hold", "release") == "release " + button
    ensures !Contains("hold " + button, "stick")
  {
    assert "hold " + button == "hold" + (" " + button);
    ReplaceHead("hold", " " + button, "release");
    ReplaceMissing(" " + button, "hold", "release", 'h');
    NotContains("hold " + button, "stick", 'k');
  }

  /** A "stick" clause is recognised as one, and its argument tail is what
      follows the side. */
  lemma StickArg(side: string, arg: string)
    requires side == "l" || side == "r"
    ensures Contains("stick " + side + " " + arg, "stick")
    ensures ArgTail("stick " + side + " " + arg) == arg
  {
    var clause := "stick " + side + " " + arg;
    assert clause == "stick" + (" " + side + " " + arg);
    MatchSelf("stick", " " + side + " " + arg);
    MatchAtOccurs(clause, "stick", 0);
    assert clause == "stick" + " " + side + " " + arg;
    ArgTailWords("stick", side, arg);
  }

  /** Replacing the argument tail of a "stick" clause by "center". */
  lemma StickCentre(side: string, arg: string)
    requires side == "l" || side == "r"
    requires arg != [] && arg[0] !in "stick lr "
    ensures Replace("stick " + side + " " + arg, arg, "center") == "stick " + side + " center"
  {
    assert "stick " + side + " " + arg == ("stick " + side + " ") + arg;
    ReplaceTail("stick " + side + " ", arg, "center");
  }

  /** Two "hold" clauses release both buttons. */
  lemma HoldPair(x: string, y: string)
    requires 'h' !in x && 'k' !in x && '&' !in x
    requires 'h' !in y && 'k' !in y && '&' !in y
    ensures ReleaseText(("hold " + x) + "&&" + ("hold " + y)) == ("release " + x) + "&&" + ("release " + y)
  {
    ReleasePair("hold " + x, "hold " + y);
    HoldClause(x);
    HoldClause(y);
  }

  /** Centring the left stick of "stick l <arg>&&stick r <arg>" centres
      both, since the argument is replaced everywhere. */
  lemma CentreLeft(arg: string)
    requires arg != [] && arg[0] !in "stick lr " && '&' !in arg
    ensures var a, b := "stick " + "l" + " " + arg, "stick " + "r" + " " + arg;
      Recentre(a + "&&" + b, a) == ("stick " + "l" + " center") + "&&" + ("stick " + "r" + " center")
  {
    var a, b := "stick " + "l" + " " + arg, "stick " + "r" + " " + arg;
    StickArg("l", arg);
    StickCentre("l", arg);
    StickCentre("r", arg);
    ReplaceAround(a, "&&", b, arg, "center");
  }

  /** Centring the right stick afterwards finds nothing left to replace. */
  lemma CentreRight(arg: string, d: char)
    requires d in arg && d !in "stick l center" && d !in "stick r center" && d != '&'
    ensures var centred := ("stick " + "l" + " center") + "&&" + ("stick " + "r" + " center");
      Recentre(centred, "stick " + "r" + " " + arg) == centred
  {
    var centred := ("stick " + "l" + " center") + "&&" + ("stick " + "r" + " center");
    StickArg("r", arg);
    assert d !in centred;
    ReplaceMissing(centred, arg, "center", d);
  }

  /** Both sticks moved by the same argument are both centred. */
  lemma StickPair(arg: string, c: char, d: char)
    requires arg != [] && arg[0] !in "stick lr " && '&' !in arg
    requires c in "hold" && c !in "stick lr " && c !in arg
    requires d in arg && d !in "stick l center" && d !in "stick r center" && d != '&'
    ensures ReleaseText(("stick " + "l" + " " + arg) + "&&" + ("stick " + "r" + " " + arg)) ==
      ("stick " + "l" + " center") + "&&" + ("stick " + "r" + " center")
  {
    var a, b := "stick " + "l" + " " + arg, "stick " + "r" + " " + arg;
    ReplaceMissing(a, "hold", "release", c);
    ReplaceMissing(b, "hold", "release", c);
    CentreLeft(arg);
    CentreRight(arg, d);
    ReleasePair(a, b);
  }

  /** A clause that already centres a stick is left as it is. */
  lemma CentredClause(text: string, side: string)
    requires side == "l" || side == "r"
    ensures Replace("stick " + side + " center", "hold", "release") == "stick " + side + " center"
    ensures Recentre(text, "stick " + side + " center") == text
  {
    ReplaceMissing("stick " + side + " center", "hold", "release", 'h');
    assert "stick " + side + " center" == "stick " + side + " " + "center";
    StickArg(side, "center");
    ReplaceSelf(text, "center");
  }

  /** A button clause followed by a centred stick: the button clause is
      released and the stick clause stays. */
  lemma ButtonThenCentred(first: string, released: string, side: string)
    requires side == "l" || side == "r"
    requires '&' !in first && '&' !in released
    requires Replace(first, "hold", "release") == released && !Contains(first, "stick")
    ensures ReleaseText(first + "&&" + ("stick " + side + " center")) == released + "&&" + ("stick " + side + " center")
  {
    var centred := "stick " + side + " center";
    CentredClause(released + "&&" + centred, side);
    assert '&' !in centred;
    ReleasePair(first, centred);
  }

  /** A clause that already says "release b" is left as it is. */
  lemma ReleasedClause()
    ensures Replace("release b", "hold", "release") == "release b"
    ensures !Contains("release b", "stick")
  {
    ReplaceMissing("release b", "hold", "release", 'h');
    NotContains("release b", "stick", 'k');
  }

  /** The release chain synthesised for each pressed chain of the table:
      every "hold" clause becomes a "release" clause and every stick is
      centred. */
  const ReleaseFor: map<int, string> := map[
    38 := "release a" + "&&" + "release y",
    48 := "release x",
    42 := "release l" + "&&" + "release zl",
    36 := "release r" + "&&" + "release zr",
    51 := "stick l center" + "&&" + "stick r center",
    55 := "stick l center" + "&&" + "stick r center",
    45 := "stick l center" + "&&" + "stick r center",
    41 := "stick l center" + "&&" + "stick r center",
    6 := "release b" + "&&" + "stick l center",
    5 := "release b" + "&&" + "stick l center",
    7 := "stick l center"
  ]

  lemma Release38()
    ensures ReleaseText(Mapped(38)) == ReleaseFor[38]
  {
    assert "hold a" == "hold " + "a" && "hold y" == "hold " + "y";
    HoldPair("a", "y");
    assert "release a" == "release " + "a" && "release y" == "release " + "y";
  }

  lemma Release42()
    ensures ReleaseText(Mapped(42)) == ReleaseFor[42]
  {
    assert "hold l" == "hold " + "l" && "hold zl" == "hold " + "zl";
    HoldPair("l", "zl");
    assert "release l" == "release " + "l" && "release zl" == "release " + "zl";
  }

  lemma Release36()
    ensures ReleaseText(Mapped(36)) == ReleaseFor[36]
  {
    assert "hold r" == "hold " + "r" && "hold zr" == "hold " + "zr";
    HoldPair("r", "zr");
    assert "release r" == "release " + "r" && "release zr" == "release " + "zr";
  }

  lemma Release48()
    ensures ReleaseText(Mapped(48)) == ReleaseFor[48]
  {
    assert "hold x" == "hold " + "x";
    ReleaseSingle("hold " + "x");
    HoldClause("x");
    assert "release x" == "release " + "x";
  }

  lemma Release51()
    ensures ReleaseText(Mapped(51)) == ReleaseFor[51]
  {
    assert "stick l h 3200" == "stick " + "l" + " " + "h 3200" && "stick r h 3200" == "stick " + "r" + " " + "h 3200";
    StickPair("h 3200", 'd', '3');
    assert "stick l center" == "stick " + "l" + " center" && "stick r center" == "stick " + "r" + " center";
  }

  lemma Release55()
    ensures ReleaseText(Mapped(55)) == ReleaseFor[55]
  {
    assert "stick l h 848" == "stick " + "l" + " " + "h 848" && "stick r h 848" == "stick " + "r" + " " + "h 848";
    StickPair("h 848", 'd', '8');
    assert "stick l center" == "stick " + "l" + " center" && "stick r center" == "stick " + "r" + " center";
  }

  lemma Release45()
    ensures ReleaseText(Mapped(45)) == ReleaseFor[45]
  {
    assert "stick l up" == "stick " + "l" + " " + "up" && "stick r up" == "stick " + "r" + " " + "up";
    StickPair("up", 'd', 'p');
    assert "stick l center" == "stick " + "l" + " center" && "stick r center" == "stick " + "r" + " center";
  }

  lemma Release41()
    ensures ReleaseText(Mapped(41)) == ReleaseFor[41]
  {
    assert "stick l down" == "stick " + "l" + " " + "down" && "stick r down" == "stick " + "r" + " " + "down";
    StickPair("down", 'h', 'w');
    assert "stick l center" == "stick " + "l" + " center" && "stick r center" == "stick " + "r" + " center";
  }

  lemma Release6()
    ensures ReleaseText(Mapped(6)) == ReleaseFor[6]
  {
    assert "hold b" == "hold " + "b" && "release b" == "release " + "b";
    HoldClause("b");
    assert "stick l center" == "stick " + "l" + " center";
    ButtonThenCentred("hold b", "release b", "l");
  }

  lemma Release5()
    ensures ReleaseText(Mapped(5)) == ReleaseFor[5]
  {
    ReleasedClause();
    assert "stick l center" == "stick " + "l" + " center";
    ButtonThenCentred("release b", "release b", "l");
  }

  lemma Release7()
    ensures ReleaseText(Mapped(7)) == ReleaseFor[7]
  {
    assert "stick l center" == "stick " + "l" + " center";
    CentredClause(Replace("stick " + "l" + " center", "hold", "release"), "l");
    ReleaseSingle("stick " + "l" + " center");
  }

  /** Every chain of the table is released by its entry in `ReleaseFor`:
      the pressed buttons are released and every stick it moved is
      centred, and nothing else is sent. */
  lemma ReleaseChains(note: int)
    requires note in MidiToKey
    ensures note in ReleaseFor
    ensures ReleaseText(Mapped(note)) == ReleaseFor[note]
  {
    if note == 38 { Release38(); }
    else if note == 48 { Release48(); }
    else if note == 42 { Release42(); }
    else if note == 36 { Release36(); }
    else if note == 51 { Release51(); }
    else if note == 55 { Release55(); }
    else if note == 45 { Release45(); }
    else if note == 41 { Release41(); }
    else if note == 6 { Release6(); }
    else if note == 5 { Release5(); }
    else { Release7(); }
  }
}
