# Switch MIDI controller: command line and drum translation

This project models the command line of the Switch MIDI controller
(`joycontrol/command_line_interface.py`) in Dafny. The file holds three
things:

- **The drum loop of `ControllerCLI.run`.** Each iteration polls a MIDI
  message and counts down the hold timers of the pads that were hit
  (`arlBuffer`). Then, depending on the message:
  - a `note_on` is translated through the fixed `midi_to_key` table into a
    chain of commands;
  - a pedal `control_change` is latched into a press or a release;
  - when no message arrived, the first note whose time is up is released.
    Its release chain is synthesised by text substitution ("hold" becomes
    "release", stick arguments become "center").

  The resulting chain is then dispatched. In menu mode only its first
  clause is dispatched. Eleven hits in a row on the menu pad toggle menu
  mode.
- **Chain dispatch, shared by `ControllerCLI.run` and the text loop of
  `CLI.run` (lines 86-111).** `CLI.run` as written never reaches that loop:
  line 80 uses the name `pg`, which the file never imports. A line is
  split at "&&" into clauses, and each clause is tokenised. Its first word
  is resolved in this order: `exit`, a `cmd_<name>` method, a registered
  command, an available button, or "not found". Buttons are pushed once,
  after the chain.
- **Helpers.**
  - `_print_doc` strips the common whitespace indentation of a doc string.
  - `_set_stick` and `cmd_stick` validate stick commands.
  - `CLI.add_command` registers commands, rejecting duplicates.

Modules, one per file:

- `Results` (`results.dfy`): `Option` and `Result`.
- `Text` (`text.dfy`): the Python string operations the code relies on.
  These are `str.split(sep)`, `str.replace`, `in` on strings, `shlex.split`
  tokenisation, `int()` on a token, and `str()` of an integer.
- `Doc` (`doc.dfy`): `_print_doc`.
- `Registry` (`registry.dfy`): `CLI.add_command`.
- `Stick` (`stick.dfy`): `_set_stick` and `cmd_stick`. A stick is recorded
  as the list of setter calls it received.
- `Dispatch` (`dispatch.dfy`): the clause loop of both `run` methods, as a
  plan of handler calls, a push list and an ending.
- `Midi` (`midi.dfy`): the translation table, the iteration state, and one
  iteration (`React`, `Step`, `Tick`).
- `MidiLaws` (`midi_laws.dfy`): what iterations and runs of iterations
  guarantee.
- `ReleaseTable` (`release.dfy`): the release chain of every table entry.
- `Scenario` (`scenario.dfy`): worked iterations from the initial state.

Time is an integer number of milliseconds. The hold times are 40 and 300.
The hold buffer is a sequence of (note, time left) entries in dictionary
insertion order.

## Model

| member | source | states |
|---|---|---|
| Text.SplitJoin | joycontrol/command_line_interface.py:240 | The clauses of a chain, joined again with "&&", give back the chain. |
| Text.SplitPiecesFree | joycontrol/command_line_interface.py:240 | No clause of a split chain contains "&&". |
| Text.SplitLeftmost | joycontrol/command_line_interface.py:240 | Every clause but the last stops at the leftmost "&&" after its start. With the two rows above this fixes the split: "a&&&b" gives "a" and "&b". |
| Text.Contains | joycontrol/command_line_interface.py:207 | The `in` test holds exactly when the pattern occurs at some position of the string. |
| Text.FirstPieceWhole | joycontrol/command_line_interface.py:236 | The first clause of a chain is a single clause: splitting it again yields only itself. |
| Text.FirstPieceSpec | joycontrol/command_line_interface.py:236 | `split("&&")[0]` is the whole chain when it holds no "&&". Otherwise it is the text before the leftmost "&&", which follows it in the chain. |
| Text.Words | joycontrol/command_line_interface.py:241 | The words of a clause are non-empty and free of shlex's separators (space, tab, carriage return, newline). There are none exactly when the clause holds nothing but separators. |
| Text.WordsAreRuns | joycontrol/command_line_interface.py:241 | The words are exactly the maximal runs between separators, in order. There is one word per run, and the run starting at position b is the word numbered by how many runs start before b. So "ab" is one word. |
| Text.WordsSqueeze | joycontrol/command_line_interface.py:241 | The words of a clause, put back together, are the clause with its separators removed. Nothing is lost or invented. |
| Text.ReplaceIsSplitJoin | joycontrol/command_line_interface.py:226 | Replacing a pattern is the same as splitting at it and joining with the replacement. |
| Text.ReplaceAround | joycontrol/command_line_interface.py:226 | A replacement whose pattern shares no character with the separator works clause by clause. |
| Text.ParseShow | joycontrol/command_line_interface.py:148 | `int()` applied to the printed form of any integer gives that integer back. |
| Text.ParseInt | joycontrol/command_line_interface.py:147-150 | A token parses exactly when it is an optional sign followed by digits; otherwise the error branch is taken. A "-" gives a value at most zero, and any other token a value at least zero. |
| Text.ParseIntDigits | joycontrol/command_line_interface.py:148 | The value `int()` gives a token: its digits after the sign are the decimal form of the value's magnitude, possibly behind leading zeros. So the token fixes the value, and "-0" gives 0. |
| Text.ParseSignsAndZeros | joycontrol/command_line_interface.py:148 | A "+" sign or a leading zero leaves a numeral's value unchanged, and a "-" negates it: "+7", "007" and "7" all give 7. |
| Text.Strip | joycontrol/command_line_interface.py:43 | `strip()` is empty exactly when the line is blank. Otherwise it starts and ends with a non-whitespace character, and what it cuts off on either side is whitespace. |
| Doc.FirstNonBlank | joycontrol/command_line_interface.py:41-43 | The scan stops at the first non-blank line; every line before it is blank. |
| Doc.ScanIndent | joycontrol/command_line_interface.py:45-50 | The column scan stops at the first non-whitespace character or at the first column where another non-blank line differs. Every column before it is shared whitespace. |
| Doc.Indent | joycontrol/command_line_interface.py:38-51 | The stripped prefix is whitespace and starts every non-blank line. It is the longest such prefix, and it is empty when every line is blank. |
| Doc.StripIndent | joycontrol/command_line_interface.py:53-54 | Blank lines come out unchanged. Every non-blank line loses exactly the common prefix. With no non-blank line, the output equals the input. |
| Doc.PrintDoc | joycontrol/command_line_interface.py:38 | One output line per line of the doc string. |
| Doc.PrintDocBlank | joycontrol/command_line_interface.py:38-54 | A blank doc string is printed exactly as it is. |
| Registry.AddCommand | joycontrol/command_line_interface.py:61-64 | Registration fails exactly when the name is taken, with the duplicate error. Otherwise it adds the name with its handler and keeps every other entry. |
| Registry.AddAll | joycontrol/command_line_interface.py:61-64 | A successful series of registrations keeps every earlier entry and binds every name. A failed one reports a duplicate that is one of the names. |
| Registry.AddAllSpec | joycontrol/command_line_interface.py:61-64 | A series of registrations succeeds exactly when the names are pairwise different and new. The result maps each name to its own handler. |
| Registry.ReRegisterFails | joycontrol/command_line_interface.py:62-63 | Registering a name twice fails with the duplicate error for that name. |
| Stick.SetStick | joycontrol/command_line_interface.py:133-161 | A preset direction always succeeds. h/v need a value that parses, and then call the matching setter with it. Each error is raised exactly in its own case: missing value, unparsable value, unknown direction. |
| Stick.SetStickWords | joycontrol/command_line_interface.py:144-159 | Every setter call can be requested by some command words. |
| Stick.CmdStick | joycontrol/command_line_interface.py:173-180 | A bad side, or any validation error, fails and touches no stick. On success exactly the selected stick gets one more setter call. |
| Stick.StickCommand | joycontrol/command_line_interface.py:165 | Fewer than two or more than three arguments fail. Two or three are bound to side, direction and optional value, and then behave exactly as `cmd_stick`. A success adds exactly one call to exactly one stick. |
| Dispatch.Classify | joycontrol/command_line_interface.py:241-265 | A clause of separators only has no command. Otherwise the first word resolves by the priority exit, method, registered command, available button, not found, each case exactly when the higher ones do not apply. |
| Dispatch.WalkIsReference | joycontrol/command_line_interface.py:240-265 | The loop's calls and buttons are those of the clauses before the first `exit` or empty clause, in order. Its ending is named by that clause. |
| Dispatch.PlanChainIsReference | joycontrol/command_line_interface.py:240-269 | The plan is that reference, and buttons are pushed only when no clause stopped the chain. |
| Dispatch.WalkBounds | joycontrol/command_line_interface.py:240-265 | Every collected name is an available button and no method, command or `exit`. Each clause contributes at most one call or button. |
| Dispatch.PlanChainPush | joycontrol/command_line_interface.py:262-269 | Pushed names are available buttons that were not claimed by a method or command. A push only happens on a completed chain. |
| Dispatch.ControllerStickClause | joycontrol/command_line_interface.py:247-248 | In the controller's loop a clause whose first word is "stick" calls `cmd_stick` with the other words, whatever commands or buttons share that name. |
| Dispatch.TextCommand | joycontrol/command_line_interface.py:86-111 | An empty line dispatches nothing. A text line never pushes a button. This is the loop as if lines 80-83 were absent. |
| Dispatch.ExecuteAppend | joycontrol/command_line_interface.py:240-265 | Running the calls of two plans one after the other is running them in sequence. |
| Dispatch.FailingStickSkipped | joycontrol/command_line_interface.py:248-254 | A `stick` call that raises leaves the sticks as if that clause were absent, and the rest of the chain still runs. |
| Midi.Mapped | joycontrol/command_line_interface.py:15-25 | A note gets its table chain. The result is empty exactly for a note the table lacks, because every chain of the table is non-empty. |
| Midi.React | joycontrol/command_line_interface.py:196-231 | Only a pedal message moves the latch, and only a note moves the menu state. No iteration drops an entry except one without a message, which drops at most one. A note adds at most one entry. Any other message dispatches nothing, and a pedal or other message only counts down. An iteration without a message counts every entry down and then drops at most one entry whose time is up, keeping the others in order. |
| Midi.Step | joycontrol/command_line_interface.py:232-236 | A command is dispatched exactly when the iteration produced one. Outside menu mode it is the whole chain. In menu mode it is the whole first clause: the chain itself when it holds no "&&", otherwise the text before its leftmost "&&". |
| Midi.Tick | joycontrol/command_line_interface.py:232-269 | A plan exists exactly when a command was produced. In menu mode the plan runs at most one handler or pushes at most one button. |
| Midi.Run | joycontrol/command_line_interface.py:196-236 | Over a run the buffer grows by at most one entry per iteration. Without pedal messages the latch is unchanged, and without notes the menu state is unchanged. |
| Midi.Countdown | joycontrol/command_line_interface.py:200-201 | Every timer goes down by the elapsed time; order and notes stay. |
| Midi.CountdownNotes | joycontrol/command_line_interface.py:200-201 | Counting down neither adds nor drops a note, and keeps notes distinct. |
| Midi.Position | joycontrol/command_line_interface.py:207 | Finds the entry of a note, which is the only one before which the note does not occur, or reports none. |
| Midi.Hold | joycontrol/command_line_interface.py:207 | After setting a note's time the buffer holds that note. It grows by one entry exactly when the note was absent, and entries of other notes keep their places. |
| Midi.HoldSpec | joycontrol/command_line_interface.py:207 | Setting a hold time refreshes the note's entry in place, or appends one. All other entries stay as they were, and notes stay distinct. |
| Midi.FirstExpired | joycontrol/command_line_interface.py:224-225 | Finds the first entry in buffer order whose time is up. Every entry before it still has time. |
| Midi.RemoveAt | joycontrol/command_line_interface.py:230 | Deleting an entry keeps all the others in order. |
| Midi.RemoveAtNotes | joycontrol/command_line_interface.py:230 | After deletion exactly the deleted note is gone, and notes stay distinct. |
| Midi.Remap | joycontrol/command_line_interface.py:205 | 46 always plays as 42. 38 plays as 42 exactly when 38 is in the buffer, expired or not. Every other note plays as itself. |
| Midi.HoldTime | joycontrol/command_line_interface.py:207 | 300 ms exactly for a chain mentioning "stick", 40 ms otherwise. |
| Midi.CountMenu | joycontrol/command_line_interface.py:208-215 | The menu note counts up. The press after ten counted ones toggles the mode and restarts the count. Any other note restarts the count. The count stays within 0..10. |
| Midi.Latch | joycontrol/command_line_interface.py:216-222 | The press chain comes exactly on a value above 64 with the latch open. The release chain comes exactly on a value at or below 64 with the latch closed. Nothing else emits, and the latch follows what was emitted. |
| Midi.ArgTail | joycontrol/command_line_interface.py:228 | The tail is a suffix of the clause that follows its second space (or its first, or none). |
| Midi.ArgTailWords | joycontrol/command_line_interface.py:228 | For "stick SIDE ARG", the tail is ARG, even when ARG contains spaces. |
| Midi.ReleasePair | joycontrol/command_line_interface.py:226-229 | The release of a two-clause chain is "hold" replaced in each clause, then each stick clause's argument centred. |
| Midi.ReleaseSingle | joycontrol/command_line_interface.py:226-229 | The same for a chain of one clause. |
| Midi.ReleaseWithoutSticks | joycontrol/command_line_interface.py:226-229 | A chain that mentions no stick is released by turning every "hold" into "release" and nothing else. |
| Midi.Shown | joycontrol/command_line_interface.py:235-236 | What is dispatched is a prefix of the chain. Outside menu mode it is the whole chain. In menu mode it is the whole first clause, which is a single clause: the chain itself when it holds no "&&", otherwise the text before its leftmost "&&". |
| ReleaseTable.ReleaseChains | joycontrol/command_line_interface.py:226-229 | Every table chain is released by its entry in `ReleaseFor`, e.g. 38 gives "release a&&release y" and 51 gives "stick l center&&stick r center". |
| MidiLaws.StartInv | joycontrol/command_line_interface.py:192-194 | The initial state satisfies the loop invariant. |
| MidiLaws.StepInv | joycontrol/command_line_interface.py:196-231 | Every iteration keeps the buffer a dictionary and the menu count within 0..10. |
| MidiLaws.RunInv | joycontrol/command_line_interface.py:196-231 | So does every run of iterations. |
| MidiLaws.NoteOnStep | joycontrol/command_line_interface.py:204-215 | After a hit, the remapped note (mapped or not) is held for its hold time. Every other entry is only counted down. A chain is dispatched exactly when the table has one, and the latch is untouched. |
| MidiLaws.IdleStep | joycontrol/command_line_interface.py:223-231 | Without a message, every entry is counted down, then the first expired entry is dropped and its release is dispatched; the other entries keep their order and counted-down times. If no entry is expired, nothing changes but the timers. |
| MidiLaws.ReleaseOnlyExpired | joycontrol/command_line_interface.py:223-231 | A note leaves the buffer only on an iteration without a message and only once its time is up. At most one note leaves per iteration. |
| MidiLaws.MenuPressesCount | joycontrol/command_line_interface.py:208-215 | Up to ten hits on the menu note count up and leave the mode alone. |
| MidiLaws.MenuToggle | joycontrol/command_line_interface.py:208-215 | From count c, exactly 11 - c further hits toggle the mode and restart the count. |
| MidiLaws.PedalAlternates | joycontrol/command_line_interface.py:216-222 | Over any run of pedal messages, the dispatched chains strictly alternate press and release, starting with the one the latch allows. The latch's final state matches the parity, and the menu state is untouched. |
| MidiLaws.UnmappedReleaseEmpty | joycontrol/command_line_interface.py:226-229 | An unmapped note's expiry dispatches nothing. |
| MidiLaws.TickPlan | joycontrol/command_line_interface.py:232-269 | An empty command dispatches nothing. Otherwise the plan is that of the shown command, and in menu mode it runs at most one handler or pushes at most one button. |
| Scenario.FirstHit | joycontrol/command_line_interface.py:204-215 | From the start, hitting pad 38 presses A and holds 38 for 40 ms. |
| Scenario.ReleaseAfterHold | joycontrol/command_line_interface.py:223-236 | Once those 40 ms are up, the next idle iteration releases A ("release a" in menu mode) and empties the buffer. |
| Scenario.HeldUntilExpiry | joycontrol/command_line_interface.py:223-231 | Before the 40 ms are up, an idle iteration only counts down. |
| Scenario.SecondHitFlams | joycontrol/command_line_interface.py:205-207 | Hitting 38 again while it is held plays 42 ("hold l") and holds both notes. |

## Left out

- MIDI device discovery, opening and polling (lines 183-190, 199): messages are a parameter of each iteration.
- `time.perf_counter` and its float arithmetic (191, 197-198): the elapsed time is an integer parameter in milliseconds.
- `asyncio.sleep`, `ainput` and every `print`: the model returns what would be printed or dispatched instead.
- `CLI.run`'s device listing and MIDI input (80-83). Line 80 calls `pg.get_count()`, but `pg` is never imported, so as written `CLI.run` raises `NameError` before its loop. `Dispatch.TextCommand` models the loop at 86-111 as if 80-83 were absent.
- `cmd_help`, which lists doc strings by reflection (66-77, 126-130), and `deprecated` (113-118): they only print. The doc formatting they use is modelled in `Doc`.
- The controller state, which lives outside this file:
  - Stick setters are recorded as calls; their effect on the stick position, and the getters in the success message (163), are not modelled.
  - `button_push` is represented by the push list of a plan.
  - The available buttons are a set parameter per chain. The source asks for them once per clause (246); the model assumes they do not change within a chain.
- Handler bodies of registered commands and of `cmd_help`: they are opaque. A handler that raises only prints (253-254, 260-261), so the plan does not depend on them. Only `stick` calls are run against the sticks.
- Text.Words: `shlex.split` is modelled as splitting at its separators: space, tab, carriage return and newline. Quotes and backslash escapes are not modelled. A clause with a quote or backslash is tokenised as if those were ordinary characters, and an unbalanced quote, which raises in `shlex`, is not an error here.
- Text.ParseInt: Python's `int()` is modelled as an optional sign followed by ASCII digits. Surrounding whitespace, underscores and non-ASCII digits are rejected here, though `int()` accepts them.
- Midi.Run: a run does not stop when a dispatched clause is `exit` (244), or when a clause is empty (241 raises). `Tick` reports both as the plan's ending.
- Message types other than `note_on` and `control_change` are modelled as `OtherMessage`. Such a message is truthy, so that iteration releases nothing (203, 223).

