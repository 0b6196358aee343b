/** The tic-tac-toe controller: instructions, then a wait in which the
    human may move first as X (otherwise the computer opens in the top-left
    corner), alternating turns, and a restart on button 0.

    The touchscreen status, the board square under the last touch and the
    button word are inputs of each tick; acknowledging the touch is an
    output. Drawing is left out. The tick counts for the two five-second
    periods are computed with floating point in the program and are
    parameters here. The controller state includes `choice`, the last move
    the search recorded, which the search keeps between calls. */
module TicTacToeControl {
  import opened Common
  import opened Minimax
  import Touchscreen

  datatype State = InstructionsSt | GameBeginSt | DisplayTouchSt | ComputerTurnSt | PlayerTurnSt | GameEndSt

  const BTN0_MASK: bv32 := 0x01

  datatype Control = Control(
    state: State,
    board: Board,
    xTurn: bool,
    instructionsCycles: nat,  // uint16
    instructionsCnt: nat,     // uint16
    initWaitCycles: nat,      // uint16
    initWaitCnt: nat,         // uint16
    touched: Location,        // the square of the most recent touch
    choice: Location)         // the search's last recorded move

  /** The inputs a tick reads: the touchscreen status, the square the
      display maps the touched point to, and the buttons. */
  datatype Inputs = Inputs(status: Touchscreen.Status, touchedAt: Location, buttons: bv32)

  /** The controller after a tick, and whether it acknowledged the touch. */
  datatype Step = Step(next: Control, ack: bool)

  /** X has moved as often as O, or once more when it is O's turn. */
  predicate TurnParity(b: Board, xTurn: bool) {
    Count(b, X) == Count(b, O) + (if xTurn then 0 else 1)
  }

  predicate EmptyBoard(b: Board) {
    forall i :: 0 <= i < SQUARES ==> b[i] == Empty
  }

  /** Counters in range, locations on the board, turns alternating, and a
      fresh board with X to move before the first move. */
  ghost predicate Inv(c: Control) {
    && c.instructionsCycles < U16_MODULUS && c.instructionsCnt < U16_MODULUS
    && c.initWaitCycles < U16_MODULUS && c.initWaitCnt < U16_MODULUS
    && OnBoard(c.touched) && OnBoard(c.choice)
    && TurnParity(c.board, c.xTurn)
    && (c.state == InstructionsSt || c.state == GameBeginSt ==> c.xTurn && EmptyBoard(c.board))
  }

  /** ticTacToeControl_init. */
  function Init(instructionsCycles: nat, initWaitCycles: nat): (c: Control)
    requires instructionsCycles < U16_MODULUS && initWaitCycles < U16_MODULUS
    ensures c.state == InstructionsSt && c.xTurn && EmptyBoard(c.board)
    ensures c.instructionsCnt == 0 && c.initWaitCnt == 0
    ensures Inv(c)
  {
    var b := InitBoard();
    AllEmptyCount(b);
    Control(InstructionsSt, b, true, instructionsCycles, 0, initWaitCycles, 0,
            Location(0, 0), Location(0, 0))
  }

  /** playInLocation: the mover's mark on exactly that square, then the
      other player's turn. */
  function PlayInLocation(c: Control, l: Location): (r: Control)
    requires OnBoard(l)
    ensures r.board[Index(l)] == Mark(c.xTurn)
    ensures forall i :: 0 <= i < SQUARES && i != Index(l) ==> r.board[i] == c.board[i]
    ensures r.xTurn == !c.xTurn
    ensures r == c.(board := r.board, xTurn := r.xTurn)
  {
    c.(board := Place(c.board, Index(l), Mark(c.xTurn)), xTurn := !c.xTurn)
  }

  /** Playing on an empty square keeps the turns alternating. */
  lemma PlayKeepsParity(c: Control, l: Location)
    requires OnBoard(l) && TurnParity(c.board, c.xTurn) && c.board[Index(l)] == Empty
    ensures TurnParity(PlayInLocation(c, l).board, !c.xTurn)
  {
    var b := Place(c.board, Index(l), Mark(c.xTurn));
    assert Count(b, X) == Count(c.board, X) + (if c.xTurn then 1 else 0);
    assert Count(b, O) == Count(c.board, O) + (if c.xTurn then 0 else 1);
  }

  /** locationIsOccupied. */
  function LocationIsOccupied(c: Control, l: Location): (r: bool)
    requires OnBoard(l)
    ensures r <==> c.board[Index(l)] == X || c.board[Index(l)] == O
  {
    c.board[Index(l)] != Empty
  }

  /** clearBoard: every square empty, nothing else touched. */
  function ClearBoard(c: Control): (r: Control)
    ensures EmptyBoard(r.board) && Count(r.board, X) == 0 && Count(r.board, O) == 0
    ensures r == c.(board := r.board)
  {
    var b := InitBoard();
    AllEmptyCount(b);
    c.(board := b)
  }

  /** The restart test as the program writes it, `buttons_read() &&
      BTN0_MASK`: a logical and with a non-zero constant, true for any
      pressed button. */
  function RestartRequestedAsWritten(buttons: bv32): (r: bool)
    ensures r <==> buttons != 0
  {
    buttons != 0 && BTN0_MASK != 0
  }

  /** The restart test as intended: button 0 is pressed. */
  function RestartRequested(buttons: bv32): (r: bool)
    ensures r <==> buttons & 1 == 1
  {
    buttons & BTN0_MASK != 0
  }

  /** Pressing only button 1 restarts the game as written, though it is not
      button 0. */
  lemma OtherButtonRestartsAsWritten()
    ensures RestartRequestedAsWritten(0x2) && !RestartRequested(0x2)
  {
  }

  /** As written, the test is true exactly for a non-zero button word; the
      intended test is true exactly when bit 0 is set. */
  lemma RestartTests(buttons: bv32)
    ensures RestartRequestedAsWritten(buttons) <==> buttons != 0
    ensures RestartRequested(buttons) ==> RestartRequestedAsWritten(buttons)
    ensures RestartRequested(buttons) <==> buttons & 1 == 1
  {
  }

  /** The restart test a tick applies: the intended one, or the program's. */
  predicate Restarts(buttons: bv32, intendedRestart: bool) {
    if intendedRestart then RestartRequested(buttons) else RestartRequestedAsWritten(buttons)
  }

  /** The transition half of a tick. */
  function Transition(c: Control, inp: Inputs, intendedRestart: bool): (r: (Control, bool))
    requires OnBoard(inp.touchedAt) && OnBoard(c.touched)
    ensures r.1 ==> c.state == DisplayTouchSt && inp.status == Touchscreen.Released
    ensures r.0.instructionsCycles == c.instructionsCycles && r.0.initWaitCycles == c.initWaitCycles
    ensures r.0.state == c.state ==> r.0 == c
  {
    match c.state
    case InstructionsSt =>
      if c.instructionsCnt >= c.instructionsCycles then
        (c.(state := GameBeginSt, initWaitCnt := 0), false)
      else (c, false)
    case GameBeginSt =>
      if c.initWaitCnt >= c.initWaitCycles then
        (PlayInLocation(c.(initWaitCnt := 0), Location(0, 0)).(state := PlayerTurnSt), false)
      else if inp.status == Touchscreen.Pressed then
        (c.(initWaitCnt := 0, touched := inp.touchedAt, state := DisplayTouchSt), false)
      else (c, false)
    case DisplayTouchSt =>
      if inp.status == Touchscreen.Released && !LocationIsOccupied(c, c.touched) then
        (PlayInLocation(c, c.touched).(state := ComputerTurnSt), true)
      else if inp.status == Touchscreen.Released then
        (c.(state := PlayerTurnSt), true)
      else (c, false)
    case ComputerTurnSt =>
      if IsGameOver(Score(c.board, c.xTurn)) then (c.(state := GameEndSt), false)
      else
        var l := ComputeNextMove(c.board, c.xTurn, c.choice);
        (PlayInLocation(c.(choice := l), l).(state := PlayerTurnSt), false)
    case PlayerTurnSt =>
      if IsGameOver(Score(c.board, c.xTurn)) then (c.(state := GameEndSt), false)
      else if inp.status == Touchscreen.Pressed then
        (c.(touched := inp.touchedAt, state := DisplayTouchSt), false)
      else (c, false)
    case GameEndSt =>
      if Restarts(inp.buttons, intendedRestart) then
        (ClearBoard(c).(xTurn := true, state := GameBeginSt), false)
      else (c, false)
  }

  /** The action half of a tick: the two waiting states count their ticks. */
  function Action(c: Control): Control
    requires c.instructionsCnt < U16_MODULUS && c.initWaitCnt < U16_MODULUS
  {
    match c.state
    case InstructionsSt => c.(instructionsCnt := Incr(c.instructionsCnt, U16_MODULUS))
    case GameBeginSt => c.(initWaitCnt := Incr(c.initWaitCnt, U16_MODULUS))
    case _ => c
  }

  /** ticTacToeControl_tick, with the restart test selected by
      `intendedRestart`. */
  function TickWith(c: Control, inp: Inputs, intendedRestart: bool): (s: Step)
    requires Inv(c) && OnBoard(inp.touchedAt)
    ensures Inv(s.next)
    ensures s.ack ==> c.state == DisplayTouchSt && inp.status == Touchscreen.Released
  {
    var (t, ack) := Transition(c, inp, intendedRestart);
    TransitionKeepsInv(c, inp, intendedRestart);
    Step(Action(t), ack)
  }

  /** ticTacToeControl_tick as written: at game end any pressed button
      restarts. */
  function TickAsWritten(c: Control, inp: Inputs): (s: Step)
    requires Inv(c) && OnBoard(inp.touchedAt)
    ensures Inv(s.next)
    ensures c.state == GameEndSt ==> (s.next.state == GameBeginSt <==> inp.buttons != 0)
  {
    RestartTests(inp.buttons);
    TickWith(c, inp, false)
  }

  /** ticTacToeControl_tick as intended: at game end only button 0
      restarts. */
  function Tick(c: Control, inp: Inputs): (s: Step)
    requires Inv(c) && OnBoard(inp.touchedAt)
    ensures Inv(s.next)
    ensures c.state == GameEndSt ==> (s.next.state == GameBeginSt <==> inp.buttons & BTN0_MASK != 0)
  {
    TickWith(c, inp, true)
  }

  /** The two ticks differ only at game end when some button other than
      button 0 is pressed: the program restarts there, the intended
      controller stays put. */
  lemma TicksAgree(c: Control, inp: Inputs)
    requires Inv(c) && OnBoard(inp.touchedAt)
    ensures TickAsWritten(c, inp) != Tick(c, inp) <==>
              c.state == GameEndSt && inp.buttons != 0 && inp.buttons & BTN0_MASK == 0
    ensures c.state == GameEndSt && inp.buttons != 0 && inp.buttons & BTN0_MASK == 0 ==>
              TickAsWritten(c, inp).next.state == GameBeginSt && Tick(c, inp).next == c
  {
    RestartTests(inp.buttons);
  }

  lemma TransitionKeepsInv(c: Control, inp: Inputs, intendedRestart: bool)
    requires Inv(c) && OnBoard(inp.touchedAt)
    ensures Inv(Transition(c, inp, intendedRestart).0)
  {
    match c.state
    case GameBeginSt =>
      if c.initWaitCnt >= c.initWaitCycles {
        PlayKeepsParity(c.(initWaitCnt := 0), Location(0, 0));
      }
    case DisplayTouchSt =>
      if inp.status == Touchscreen.Released && !LocationIsOccupied(c, c.touched) {
        PlayKeepsParity(c, c.touched);
      }
    case ComputerTurnSt =>
      if !IsGameOver(Score(c.board, c.xTurn)) {
        var l := ComputeNextMove(c.board, c.xTurn, c.choice);
        PlayKeepsParity(c.(choice := l), l);
      }
    case _ =>
  }

  /** From board `b` with `xTurn` to move, to `b2` with `xTurn2`: at most
      one square changes, from empty to the mover's mark, and the turn
      passes exactly when a square changes. */
  ghost predicate AtMostOneMove(b: Board, xTurn: bool, b2: Board, xTurn2: bool) {
    && (forall i :: 0 <= i < SQUARES && b2[i] != b[i] ==> b[i] == Empty && b2[i] == Mark(xTurn))
    && (forall i, j :: 0 <= i < j < SQUARES && b2[i] != b[i] ==> b2[j] == b[j])
    && (xTurn2 != xTurn <==> exists i :: 0 <= i < SQUARES && b2[i] != b[i])
  }

  /** Playing on an empty square is one move. */
  lemma PlayIsOneMove(c: Control, l: Location)
    requires OnBoard(l) && c.board[Index(l)] == Empty
    ensures AtMostOneMove(c.board, c.xTurn, PlayInLocation(c, l).board, PlayInLocation(c, l).xTurn)
  {
    var r := PlayInLocation(c, l);
    assert r.board[Index(l)] != c.board[Index(l)];
  }

  /** At most one square changes in a tick, from empty to the mark of the
      player to move, unless the game restarts; the turn passes exactly
      when a square changes. */
  lemma TickPlaysAtMostOnce(c: Control, inp: Inputs, intendedRestart: bool)
    requires Inv(c) && OnBoard(inp.touchedAt)
    requires !(c.state == GameEndSt && Restarts(inp.buttons, intendedRestart))
    ensures var next := TickWith(c, inp, intendedRestart).next;
            AtMostOneMove(c.board, c.xTurn, next.board, next.xTurn)
  {
    var (t, _) := Transition(c, inp, intendedRestart);
    var next := TickWith(c, inp, intendedRestart).next;
    assert next.board == t.board && next.xTurn == t.xTurn;
    match c.state
    case GameBeginSt =>
      if c.initWaitCnt >= c.initWaitCycles {
        PlayIsOneMove(c.(initWaitCnt := 0), Location(0, 0));
      }
    case DisplayTouchSt =>
      if inp.status == Touchscreen.Released && !LocationIsOccupied(c, c.touched) {
        PlayIsOneMove(c, c.touched);
      }
    case ComputerTurnSt =>
      if !IsGameOver(Score(c.board, c.xTurn)) {
        var l := ComputeNextMove(c.board, c.xTurn, c.choice);
        PlayIsOneMove(c.(choice := l), l);
      }
    case _ =>
  }

  /** The transitions and counters of each state, tick by tick. */
  lemma TickTransitions(c: Control, inp: Inputs, intendedRestart: bool)
    requires Inv(c) && OnBoard(inp.touchedAt)
    ensures c.state == InstructionsSt ==>
              && (TickWith(c, inp, intendedRestart).next.state == GameBeginSt <==> c.instructionsCnt >= c.instructionsCycles)
              && (TickWith(c, inp, intendedRestart).next.state == GameBeginSt ==> TickWith(c, inp, intendedRestart).next.initWaitCnt == 1)
              && (TickWith(c, inp, intendedRestart).next.state == InstructionsSt ==>
                    TickWith(c, inp, intendedRestart).next.instructionsCnt == Incr(c.instructionsCnt, U16_MODULUS))
    ensures c.state == GameBeginSt && c.initWaitCnt >= c.initWaitCycles ==>
              && TickWith(c, inp, intendedRestart).next.state == PlayerTurnSt
              && TickWith(c, inp, intendedRestart).next.board == Place(c.board, 0, X)
              && !TickWith(c, inp, intendedRestart).next.xTurn
    ensures c.state == GameBeginSt && c.initWaitCnt < c.initWaitCycles && inp.status == Touchscreen.Pressed ==>
              TickWith(c, inp, intendedRestart).next == c.(initWaitCnt := 0, touched := inp.touchedAt, state := DisplayTouchSt)
    ensures c.state == DisplayTouchSt && inp.status != Touchscreen.Released ==>
              TickWith(c, inp, intendedRestart).next == c && !TickWith(c, inp, intendedRestart).ack
    ensures c.state == PlayerTurnSt && !IsGameOver(Score(c.board, c.xTurn)) && inp.status == Touchscreen.Pressed ==>
              TickWith(c, inp, intendedRestart).next == c.(touched := inp.touchedAt, state := DisplayTouchSt)
    ensures c.state == PlayerTurnSt && !IsGameOver(Score(c.board, c.xTurn)) && inp.status != Touchscreen.Pressed ==>
              TickWith(c, inp, intendedRestart).next == c
    ensures c.state == GameBeginSt && c.initWaitCnt < c.initWaitCycles && inp.status != Touchscreen.Pressed ==>
              TickWith(c, inp, intendedRestart).next == c.(initWaitCnt := Incr(c.initWaitCnt, U16_MODULUS))
    ensures c.state == DisplayTouchSt && inp.status == Touchscreen.Released ==>
              && TickWith(c, inp, intendedRestart).ack
              && (!LocationIsOccupied(c, c.touched) ==>
                    TickWith(c, inp, intendedRestart).next.state == ComputerTurnSt &&
                    TickWith(c, inp, intendedRestart).next.board == Place(c.board, Index(c.touched), Mark(c.xTurn)))
              && (LocationIsOccupied(c, c.touched) ==>
                    TickWith(c, inp, intendedRestart).next == c.(state := PlayerTurnSt))
    ensures c.state == ComputerTurnSt || c.state == PlayerTurnSt ==>
              (TickWith(c, inp, intendedRestart).next.state == GameEndSt <==> IsGameOver(Score(c.board, c.xTurn)))
    ensures c.state == GameEndSt ==>
              && (Restarts(inp.buttons, intendedRestart) ==>
                    var n := TickWith(c, inp, intendedRestart).next;
                    n.state == GameBeginSt && n.xTurn && EmptyBoard(n.board) && n.initWaitCnt == Incr(c.initWaitCnt, U16_MODULUS))
              && (!Restarts(inp.buttons, intendedRestart) ==> TickWith(c, inp, intendedRestart).next == c)
    ensures c.state == GameEndSt && !intendedRestart ==>
              (TickWith(c, inp, false).next.state == GameBeginSt <==> inp.buttons != 0) &&
              (inp.buttons == 0 ==> TickWith(c, inp, false).next == c)
  {
    RestartTests(inp.buttons);
  }

  /** On its turn the computer plays an empty square that is best for it,
      the last such square in row-major order. */
  lemma ComputerPlaysBestEmptySquare(c: Control, inp: Inputs, intendedRestart: bool)
    requires Inv(c) && OnBoard(inp.touchedAt)
    requires c.state == ComputerTurnSt && !IsGameOver(Score(c.board, c.xTurn))
    ensures
      var l := TickWith(c, inp, intendedRestart).next.choice;
      && OnBoard(l) && c.board[Index(l)] == Empty
      && TickWith(c, inp, intendedRestart).next.board == Place(c.board, Index(l), Mark(c.xTurn))
      && (forall i :: 0 <= i < SQUARES && c.board[i] == Empty ==>
            AtLeastAsGood(MoveValue(c.board, c.xTurn, Index(l)), MoveValue(c.board, c.xTurn, i), c.xTurn))
  {
  }
}
