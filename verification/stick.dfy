/** The `stick` command of `ControllerCLI`: argument validation in
    `_set_stick` and `cmd_stick`.

    The stick objects belong to the controller state outside this file; the
    model records, for each stick, the setter calls it has received, oldest
    first. What a setter does to the stick position is not modelled. */
module Stick {
  import opened Results
  import opened Text

  /** One call of a stick setter: `set_center`, `set_up`, `set_down`,
      `set_left`, `set_right`, `set_h(value)` or `set_v(value)`. */
  datatype StickCall = SetCenter | SetUp | SetDown | SetLeft | SetRight | SetH(h: int) | SetV(v: int)

  /** The errors the command raises. `WrongArity` stands for the TypeError
      of calling `cmd_stick` with fewer than two or more than three
      arguments. */
  datatype StickError =
    | MissingValue
    | UnexpectedValue(value: string)
    | UnexpectedArgument(direction: string)
    | BadSide(side: string)
    | WrongArity(count: nat)

  /** Setter calls received by the left and the right stick. */
  datatype Sticks = Sticks(left: seq<StickCall>, right: seq<StickCall>)

  /** Direction words that call a setter without a value. */
  predicate IsPreset(direction: string) {
    direction == "center" || direction == "up" || direction == "down" || direction == "left" || direction == "right"
  }

  predicate IsHorizontal(direction: string) {
    direction == "h" || direction == "horizontal"
  }

  predicate IsVertical(direction: string) {
    direction == "v" || direction == "vertical"
  }

  /** `_set_stick`: the setter call that a direction and optional value
      select, or the error raised before any setter is called. */
  function SetStick(direction: string, value: Option<string>): (r: Result<StickCall, StickError>)
    ensures r.Success? <==>
      IsPreset(direction) || ((IsHorizontal(direction) || IsVertical(direction)) && value.Some? && ParseInt(value.value).Some?)
    ensures r == Failure(MissingValue) <==> (IsHorizontal(direction) || IsVertical(direction)) && value.None?
    ensures r == Failure(UnexpectedArgument(direction)) <==>
      !IsPreset(direction) && !IsHorizontal(direction) && !IsVertical(direction)
    ensures (exists t :: r == Failure(UnexpectedValue(t))) <==>
      (IsHorizontal(direction) || IsVertical(direction)) && value.Some? && ParseInt(value.value).None?
    ensures r.Success? && (r.value.SetH? || r.value.SetV?) ==>
      value.Some? && ParseInt(value.value) == Some(if r.value.SetH? then r.value.h else r.value.v)
    ensures r.Success? ==> (r.value.SetH? <==> IsHorizontal(direction)) && (r.value.SetV? <==> IsVertical(direction))
  {
    if direction == "center" then Success(SetCenter)
    else if direction == "up" then Success(SetUp)
    else if direction == "down" then Success(SetDown)
    else if direction == "left" then Success(SetLeft)
    else if direction == "right" then Success(SetRight)
    else if IsHorizontal(direction) || IsVertical(direction) then
      match value
      case None => Failure(MissingValue)
      case Some(t) =>
        match ParseInt(t)
        case None => Failure(UnexpectedValue(t))
        case Some(n) => Success(if IsHorizontal(direction) then SetH(n) else SetV(n))
    else Failure(UnexpectedArgument(direction))
  }

  /** The command words that produce a given setter call. */
  function CommandWords(call: StickCall): (string, Option<string>) {
    match call
    case SetCenter => ("center", None)
    case SetUp => ("up", None)
    case SetDown => ("down", None)
    case SetLeft => ("left", None)
    case SetRight => ("right", None)
    case SetH(n) => ("h", Some(Show(n)))
    case SetV(n) => ("v", Some(Show(n)))
  }

  /** Every setter call can be requested: writing it out as command words
      and validating them gives the same call back. */
  lemma SetStickWords(call: StickCall)
    ensures SetStick(CommandWords(call).0, CommandWords(call).1) == Success(call)
  {
    match call {
      case SetH(n) => ParseShow(n);
      case SetV(n) => ParseShow(n);
      case _ =>
    }
  }

  predicate IsLeftSide(side: string) {
    side == "l" || side == "left"
  }

  predicate IsRightSide(side: string) {
    side == "r" || side == "right"
  }

  /** `cmd_stick(side, direction, value)`: on success exactly the selected
      stick receives one setter call; on an error no stick is touched (the
      caller keeps its sticks). The side is checked before the direction. */
  function CmdStick(sticks: Sticks, side: string, direction: string, value: Option<string>): (r: Result<Sticks, StickError>)
    ensures r.Failure? <==> (!IsLeftSide(side) && !IsRightSide(side)) || SetStick(direction, value).Failure?
    ensures r == Failure(BadSide(side)) <==> !IsLeftSide(side) && !IsRightSide(side)
    ensures r.Success? && IsLeftSide(side) ==>
      r.value == sticks.(left := sticks.left + [SetStick(direction, value).value])
    ensures r.Success? && IsRightSide(side) ==>
      r.value == sticks.(right := sticks.right + [SetStick(direction, value).value])
  {
    if IsLeftSide(side) then
      match SetStick(direction, value)
      case Success(call) => Success(sticks.(left := sticks.left + [call]))
      case Failure(e) => Failure(e)
    else if IsRightSide(side) then
      match SetStick(direction, value)
      case Success(call) => Success(sticks.(right := sticks.right + [call]))
      case Failure(e) => Failure(e)
    else Failure(BadSide(side))
  }

  /** `cmd_stick(*args)`: Python binds two or three positional arguments;
      any other count raises before the body runs. */
  function StickCommand(sticks: Sticks, args: seq<string>): (r: Result<Sticks, StickError>)
    ensures (|args| < 2 || |args| > 3) <==> r == Failure(WrongArity(|args|))
    ensures r.Success? ==> |r.value.left| + |r.value.right| == |sticks.left| + |sticks.right| + 1
    ensures r.Success? ==> r.value.left == sticks.left || r.value.right == sticks.right
    ensures 2 <= |args| <= 3 ==>
      r == CmdStick(sticks, args[0], args[1], if |args| == 3 then Some(args[2]) else None)
  {
    if |args| == 2 then CmdStick(sticks, args[0], args[1], None)
    else if |args| == 3 then CmdStick(sticks, args[0], args[1], Some(args[2]))
    else Failure(WrongArity(|args|))
  }
}
