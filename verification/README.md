# Embedded labs: drivers, tic-tac-toe, Missile Command and Dr-Mario in Dafny

This project models the core of a set of bare-metal embedded programs for a
board with a 320x240 touch display. They are written as state machines that
are ticked from a timer interrupt. What is modelled:

- **Interval timer driver** (`IntervalTimer`). It drives the two cascaded
  32-bit counters of each of three AXI timers. Registers are a map from
  (timer, offset) to a 32-bit word, and each driver call returns the log of
  register writes it issues together with the resulting register map. The
  model covers:
  - initialisation in count-up and count-down mode;
  - start and stop;
  - reload;
  - enabling, disabling and acknowledging the interrupt;
  - splitting a 64-bit load value into TLR0 and TLR1;
  - the upper/lower/upper read loop that reads a consistent 64-bit count.
- **Interrupt controller driver** (`Interrupts`). It covers the master and
  enable registers, the table of registered routines, and one pass of the
  interrupt service routine. Each pass calls the routine of every pending
  line and acknowledges every line.
- **Touchscreen driver** (`Touchscreen`). It covers the waiting /
  ADC-settling / pressed machine and the pressed flag with its status and
  acknowledgement. ADC-settling reads the touched bit twice per tick, and
  both reads are modelled.
- **Clock control** (`ClockControl`). It covers the waiting / inc-dec /
  long-press-delay / fast-update machine that adjusts a clock from touches.
- **Tic-tac-toe minimax** (`Minimax`). It covers:
  - the board score;
  - the depth-biased minimax value;
  - the choice of the next move.
- **Tic-tac-toe controller** (`TicTacToeControl`). It covers the
  instructions / game-begin / display-touch / computer-turn / player-turn /
  game-end machine. The tick takes the restart test as a flag: the
  program's test (any pressed button) or the intended one (button 0).
- **Missile Command** (`Missile`, `Plane`, `MissileGame`):
  - the missile life cycle;
  - the plane that crosses the screen and fires once;
  - the game tick, which respawns, fires, collides, ticks half of the
    missiles and counts impacts.
- **Dr-Mario** (`DrMarioBoard`, `Pill`). It covers:
  - the tile grid;
  - virus placement;
  - colour randomisation;
  - entity moves;
  - pill initialisation and the can-move-down test.

Sizes fixed by headers outside this model are constants:
- display 320x240;
- board 8x16 with viruses in rows 5 to 15 (rows counted from 0) and 4 viruses of each colour;
- 7 enemy missiles, 4 player missiles and one plane missile.

Quantities computed in floating point in the program are parameters:
- tick counts derived from periods in seconds;
- missile flight progress and explosion radius;
- whether a point lies inside an explosion.

`rand()` values are draw parameters. Register reads at run time, the
touchscreen's touched bit (each of its reads) and the buttons are inputs.

`Common` holds `Option` and the wrapping increments used for the programs'
fixed-width counters. `Display` holds the screen size and `Point`.

## Model

| member | source | states |
|---|---|---|
| IntervalTimer.Apply | drivers/intervalTimer.c:221-235 | Replaying a log of register writes keeps the register map total over every (timer, register) pair. |
| IntervalTimer.ApplyConcat | drivers/intervalTimer.c:221-235 | Replaying two logs one after the other equals replaying their concatenation. |
| IntervalTimer.WithBits | drivers/intervalTimer.c:84-91 | OR-ing a mask sets every mask bit and leaves every other bit as it was. |
| IntervalTimer.WithoutBits | drivers/intervalTimer.c:98-105 | AND-ing with a negated mask clears every mask bit and leaves every other bit as it was. |
| IntervalTimer.SetControlBits | drivers/intervalTimer.c:84-91 | A read-modify-write of TCSR0 is one write: it sets the mask bits, keeps the others, and changes no other register. |
| IntervalTimer.ClearControlBits | drivers/intervalTimer.c:98-105 | A read-modify-write of TCSR0 is one write: it clears the mask bits, keeps the others, and changes no other register. |
| IntervalTimer.Start | drivers/intervalTimer.c:84-91 | Start sets ENT0 (0x80) in TCSR0, keeps its other bits, and touches no other register. |
| IntervalTimer.Stop | drivers/intervalTimer.c:98-105 | Stop clears ENT0 in TCSR0, keeps its other bits, and touches no other register. |
| IntervalTimer.EnableInterrupt | drivers/intervalTimer.c:165-174 | Sets ENIT0 (0x40) in TCSR0 and nothing else. |
| IntervalTimer.DisableInterrupt | drivers/intervalTimer.c:177-186 | Clears ENIT0 in TCSR0 and nothing else. |
| IntervalTimer.AckInterrupt | drivers/intervalTimer.c:189-198 | Writes the timer's own TCSR0 back once, with T0INT (0x100) set, which is write-one-to-clear on the device. The other bits are as read, and the registers after the call are the log applied to those before. |
| IntervalTimer.MaskIdempotent | drivers/intervalTimer.c:14-21 | Setting bits that are already set, or clearing bits that are already clear, changes nothing. |
| IntervalTimer.StartStopIdempotent | drivers/intervalTimer.c:84-105 | Starting twice equals starting once, and stopping twice equals stopping once. |
| IntervalTimer.StartThenStop | drivers/intervalTimer.c:84-105 | Start followed by stop leaves TCSR0 as it was with ENT0 cleared, and every other register unchanged. |
| IntervalTimer.Reload | drivers/intervalTimer.c:108-123 | Reload pulses LOAD in both control registers: four writes, the first two with LOAD set, the last two restoring the saved values. The registers end as they began. |
| IntervalTimer.ReloadRestores | drivers/intervalTimer.c:108-123 | Replaying the four reload writes gives back the original register map. |
| IntervalTimer.SplitJoinRoundTrip | drivers/intervalTimer.c:66-73 | Splitting a 64-bit load value into low and high words and joining them gives it back, and the other way round. |
| IntervalTimer.InitCountUp | drivers/intervalTimer.c:40-48 | Count-up initialisation writes CASC into TCSR0 and zero into TCSR1, and nothing else. |
| IntervalTimer.ConfigureCountDown | drivers/intervalTimer.c:57-73 | Writes CASC, UDT0 and ARHT0 into TCSR0 and zero into TCSR1, then the low and high words of the cycle count into TLR0 and TLR1. |
| IntervalTimer.InitCountDown | drivers/intervalTimer.c:57-77 | Count-down initialisation issues eight writes: the configuration, the load value (which joins back to the cycle count), then a LOAD pulse. The control registers end at 0x812 and 0. The counters and the other timers are untouched. |
| IntervalTimer.ReadCountAsWritten | drivers/intervalTimer.c:126-145 | The read loop as written compares each upper read with the FIRST one. It stops on the first later upper word equal to the first and returns that lower word joined with the first upper word. If none is equal, it spins through every sample. |
| IntervalTimer.ReadCount | drivers/intervalTimer.c:126-145 | The read loop as intended stops on the first upper word equal to the upper word read just before the lower word. It returns the consistent pair; if there is none, it reports none. |
| IntervalTimer.RolloverExample | drivers/intervalTimer.c:126-145 | On a trace in which the lower word rolls over once, the loop as written never stops, and the intended loop returns the consistent count 0x1_0000_0006. |
| Interrupts.InitialTable | drivers/interrupts.c:21 | The routine table starts with no routine on any line. |
| Interrupts.Lines | drivers/interrupts.c:65-74 | The set of lines a 32-bit word selects is exactly the lines whose bit is set. |
| Interrupts.Init | drivers/interrupts.c:39-54 | Initialisation writes MER with exactly ME and HIE set (0x3), then IER with 0, so no line is enabled. |
| Interrupts.InitDisablesEveryLine | drivers/interrupts.c:39-54 | After the initialisation writes, from any controller state, the master enables are on and no line is enabled. |
| Interrupts.Register | drivers/interrupts.c:59-62 | Registering a routine sets that line's entry and leaves every other entry alone. |
| Interrupts.RegisterOverwrites | drivers/interrupts.c:59-62 | Registering twice on one line equals registering only the second routine. |
| Interrupts.IrqEnable | drivers/interrupts.c:65-68 | Enabling a line is one write to SIE whose word selects exactly that line. |
| Interrupts.IrqDisable | drivers/interrupts.c:71-74 | Disabling a line is one write to CIE whose word selects exactly that line. |
| Interrupts.SetBitLines | drivers/interrupts.c:65-68 | OR-ing a line's bit into a word adds exactly that line to the lines it selects. |
| Interrupts.ClearBitLines | drivers/interrupts.c:71-74 | Clearing a line's bit removes exactly that line from the lines a word selects. |
| Interrupts.EnableAddsLine | drivers/interrupts.c:65-68 | After enabling a line, the enabled set is the old set plus that line, and the master register is unchanged. |
| Interrupts.DisableRemovesLine | drivers/interrupts.c:71-74 | After disabling a line, the enabled set is the old set minus that line, and the master register is unchanged. |
| Interrupts.Dispatch | drivers/interrupts.c:92-109 | One pass of the service routine calls a routine on a line exactly when that line is pending and has that routine registered. |
| Interrupts.PassLines | drivers/interrupts.c:92-109 | Every event of a pass over the first n lines is on one of those lines. |
| Interrupts.PassInvokes | drivers/interrupts.c:92-109 | Within the first n lines, a routine is called on a line exactly when that line is pending and has that routine registered. |
| Interrupts.AckedLinesAppend | drivers/interrupts.c:92-109 | The lines acknowledged in two consecutive traces are those of the first trace followed by those of the second. |
| Interrupts.PassAcknowledgesEveryLineOnce | drivers/interrupts.c:92-109 | A pass acknowledges every line exactly once, in increasing order, whether or not it was pending. |
| Interrupts.PassAcknowledgesWithMask | drivers/interrupts.c:106-107 | Each acknowledgement writes the mask of its own line. |
| Interrupts.PassOrdered | drivers/interrupts.c:92-109 | A pass visits the lines in increasing order, and on each line it calls the routine before acknowledging. |
| Interrupts.PendingUnregistered | drivers/interrupts.c:100-107 | A pending line with no routine is acknowledged without any call. |
| Interrupts.ReplacedNeverCalled | drivers/interrupts.c:59-62 | After a second registration on a line, the first routine is never called on that line. |
| Touchscreen.Init | drivers/touchscreen.c:39-48 | Initialisation starts waiting, unpressed, with the settle counter at zero, and the status is idle. |
| Touchscreen.Tick | drivers/touchscreen.c:55-126 | After a tick the driver is waiting exactly when the first read says not touched. A touch moves waiting to ADC-settling. ADC-settling goes to pressed exactly when the second read also says touched and the settle count is full, taking the new sample. Pressed stays pressed. The ADC timer is zeroed while waiting and counts up (mod 2^32) while settling. The pressed flag rises only on entering the pressed state. |
| Touchscreen.TickPreservesInv | drivers/touchscreen.c:55-126 | Whatever the two reads say, a tick keeps the counters in range, the timer zero while waiting, the flag raised while pressed, and the stored touch point on the display. |
| Touchscreen.SecondReadOnlyWhileSettling | drivers/touchscreen.c:71-87 | The second read of the touched bit changes the tick only in ADC-settling, and only after the first read saw a touch. |
| Touchscreen.AgreeingReadsKeepSettling | drivers/touchscreen.c:71-115 | When the two reads of a tick agree, the settling count stays between 1 and the settle length. |
| Touchscreen.FlickerOvershoots | drivers/touchscreen.c:71-115 | If the first read sees the touch and the second does not at the settle tick, the driver stays settling and its count passes the settle length. |
| Touchscreen.HeldPastSettleNeverPresses | drivers/touchscreen.c:71-115 | Once the count is past the settle length, a held touch keeps the driver settling and counting up without pressing, because the test is an equality. This lasts until the touch ends or the 32-bit count wraps. |
| Touchscreen.GetStatus | drivers/touchscreen.c:129-147 | The status is idle when not pressed, pressed while held after a press, and released once a press has ended. |
| Touchscreen.AckTouch | drivers/touchscreen.c:152-157 | Acknowledging a released touch makes the status idle. In any other status it changes nothing. |
| Touchscreen.AckTouchIdempotent | drivers/touchscreen.c:152-157 | Acknowledging twice equals acknowledging once. |
| Touchscreen.GetLocation | drivers/touchscreen.c:160-163 | The location is the stored touch point. |
| Touchscreen.HoldFor | drivers/touchscreen.c:55-126 | Any number of ticks with a held touch keeps the driver's invariant and settle length. |
| Touchscreen.HoldSettles | drivers/touchscreen.c:57-125 | A touch held from waiting spends exactly the settle length of ticks in ADC-settling. The next tick enters pressed with the held sample, and the status is pressed. |
| Touchscreen.HoldLast | drivers/touchscreen.c:55-126 | Holding for n+1 ticks is holding for n ticks and then one more tick. |
| ClockControl.Init | lab6_clock/clockControl.c:77-86 | Initialisation starts waiting with both counters at zero, and satisfies the invariant for a positive update period. |
| ClockControl.TickWith | lab6_clock/clockControl.c:92-196 | A tick keeps the two periods. It acknowledges exactly on a release in inc-dec, or in fast update when release acknowledgement is on. Entering inc-dec always performs an increment or decrement. |
| ClockControl.TickAsWritten | lab6_clock/clockControl.c:92-196 | As written, a tick acknowledges only a release seen in inc-dec; a release in fast update returns to waiting without an update or an acknowledgement. |
| ClockControl.Tick | lab6_clock/clockControl.c:147-151 | The corrected tick acknowledges a release seen in inc-dec and in fast update. |
| ClockControl.TicksAgree | lab6_clock/clockControl.c:147-151 | The corrected and as-written ticks agree on the next state and on updates. Their acknowledgements differ exactly on a release during fast update. |
| ClockControl.TickPreservesInv | lab6_clock/clockControl.c:92-196 | A tick keeps both counters within their periods. |
| ClockControl.TickTransitions | lab6_clock/clockControl.c:98-171 | The transition of each state on each touch status: release goes to inc-dec, inc-dec returns to waiting with an acknowledgement on release and otherwise updates, holding waits out the long-press delay and then enters fast update, and fast update counts up, updates once per period and returns to waiting on release. |
| ClockControl.FastReleaseUpdatesOnceMore | lab6_clock/clockControl.c:147-151 | As written, a release in fast update leaves the touch unacknowledged. The next tick sees the release again and performs one extra update. |
| ClockControl.FastReleaseAcknowledges | lab6_clock/clockControl.c:147-151 | With the acknowledgement, a release in fast update is consumed at once and the next idle tick does nothing. |
| ClockControl.Run | lab6_clock/clockControl.c:92-196 | Any number of ticks keeps the invariant. |
| ClockControl.FastUpdateCountsUp | lab6_clock/clockControl.c:159-189 | While held in fast update, the update counter climbs to the period without updating. |
| ClockControl.FastUpdatePeriod | lab6_clock/clockControl.c:152-189 | While held in fast update, each period of ticks performs exactly one update and returns to the same state. |
| ClockControl.RunLast | lab6_clock/clockControl.c:92-196 | Running n+1 ticks is running n ticks and then one more, counting its update. |
| Minimax.InitBoard | lab7_tictactoe/minimax.c:314-325 | The initial board has every square empty. |
| Minimax.LastMover | lab7_tictactoe/minimax.c:192-194 | The player who moved last is the opponent of the player to move. |
| Minimax.Place | lab7_tictactoe/minimax.c:56-57 | Placing a mark changes only that square, and updates the count of each mark by one. |
| Minimax.PlaceUndo | lab7_tictactoe/minimax.c:56-70 | Simulating a move on an empty square and undoing it restores the board. |
| Minimax.Score | lab7_tictactoe/minimax.c:190-311 | The score is "not endgame" exactly when the last mover holds no line and some square is empty. |
| Minimax.GameOverIffFinished | lab7_tictactoe/minimax.c:328-331 | The game is over exactly when the last mover holds a line or the board is full. |
| Minimax.IsGameOver | lab7_tictactoe/minimax.c:328-331 | The win and draw scores mean the game is over; the not-endgame score means it is not. |
| Minimax.InitBoardNotOver | lab7_tictactoe/minimax.c:314-331 | The game on the initial board is not over. |
| Minimax.ComputeBoardScore | lab7_tictactoe/minimax.c:190-311 | The row, column and diagonal checks return the winning score exactly when the last mover holds a line, and the draw score exactly when there is no line and no empty square. |
| Minimax.Moves | lab7_tictactoe/minimax.c:49-75 | The simulated moves are exactly the empty squares, in row-major order. |
| Minimax.BestIndex | lab7_tictactoe/minimax.c:84-113 | The selection loop picks a score at least as good as every other, and the last such one, since ties replace the choice. |
| Minimax.Minimax | lab7_tictactoe/minimax.c:17-114 | A finished board scores its result, biased by the depth: the depth is added when X is to move and subtracted when O is. Every value is at most 10 + depth + (number of empty squares) away from zero. |
| Minimax.MoveScores | lab7_tictactoe/minimax.c:49-75 | One score per empty square, each within the same bound. |
| Minimax.MinimaxOptimal | lab7_tictactoe/minimax.c:84-113 | On an unfinished board the value is one of the move scores and at least as good as every move score for the player to move. |
| Minimax.ComputeNextMove | lab7_tictactoe/minimax.c:170-178 | On an unfinished board the chosen square is empty, at least as good as every empty square, and strictly better than every later one. On a finished board the previous choice is returned. |
| Minimax.NextMoveIsBest | lab7_tictactoe/minimax.c:84-113 | The square picked by the selection loop is at least as good as every empty square and strictly better than every later one. |
| TicTacToeControl.Init | lab7_tictactoe/ticTacToeControl.c:65-85 | The controller starts showing instructions, with X to move on an empty board and both counters at zero. |
| TicTacToeControl.PlayInLocation | lab7_tictactoe/ticTacToeControl.c:291-303 | Playing marks that square with the mover's mark, changes no other square, and passes the turn. |
| TicTacToeControl.PlayKeepsParity | lab7_tictactoe/ticTacToeControl.c:291-303 | Playing on an empty square keeps the relation between the numbers of X and O marks and whose turn it is. |
| TicTacToeControl.ClearBoard | lab7_tictactoe/ticTacToeControl.c:311-332 | Clearing empties every square and changes nothing else. |
| TicTacToeControl.LocationIsOccupied | lab7_tictactoe/ticTacToeControl.c:305-307 | A square is occupied exactly when it holds an X or an O. |
| TicTacToeControl.RestartRequestedAsWritten | lab7_tictactoe/ticTacToeControl.c:205 | As written, the restart test holds exactly for a non-zero button word. |
| TicTacToeControl.RestartRequested | lab7_tictactoe/ticTacToeControl.c:205 | The intended restart test holds exactly when bit 0, button 0, is set. |
| TicTacToeControl.OtherButtonRestartsAsWritten | lab7_tictactoe/ticTacToeControl.c:205 | As written, pressing only button 1 restarts the game. |
| TicTacToeControl.RestartTests | lab7_tictactoe/ticTacToeControl.c:205 | As written, the restart test holds for any pressed button. The intended test holds exactly when button 0 is pressed. |
| TicTacToeControl.TickWith | lab7_tictactoe/ticTacToeControl.c:91-254 | A tick, with either restart test, keeps the controller invariant and acknowledges a touch only on a release in the display-touch state. |
| TicTacToeControl.TickAsWritten | lab7_tictactoe/ticTacToeControl.c:203-215 | As written, the game-end screen restarts exactly when the button word is non-zero. |
| TicTacToeControl.Tick | lab7_tictactoe/ticTacToeControl.c:203-215 | With the intended test, the game-end screen restarts exactly when button 0 is pressed. |
| TicTacToeControl.TicksAgree | lab7_tictactoe/ticTacToeControl.c:205 | The program and the intended controller differ exactly at game end with a button other than button 0 pressed: the program restarts there, the intended controller stays put. |
| TicTacToeControl.TransitionKeepsInv | lab7_tictactoe/ticTacToeControl.c:96-221 | The transition half keeps turn parity and the counter bounds. |
| TicTacToeControl.Transition | lab7_tictactoe/ticTacToeControl.c:96-221 | The transition acknowledges only a release in the display-touch state, keeps both periods, and changes nothing when it stays in its state. |
| TicTacToeControl.PlayIsOneMove | lab7_tictactoe/ticTacToeControl.c:291-303 | Playing on an empty square is one move: one square goes from empty to the mover's mark and the turn passes. |
| TicTacToeControl.TickPlaysAtMostOnce | lab7_tictactoe/ticTacToeControl.c:91-254 | Apart from a restart (for the program, any pressed button at game end), a tick makes at most one move. The turn passes exactly when a square is filled. |
| TicTacToeControl.TickTransitions | lab7_tictactoe/ticTacToeControl.c:96-253 | For each state and input: the instructions timeout; the wait, which counts up, takes a touch to display-touch, or times out into the computer's first move in the corner; display-touch plays the touched square or returns to the player on a release and otherwise stays put; the player's turn records a touch and goes to display-touch, and otherwise waits; game-end detection; and the restart. For the program, any non-zero button word restarts from game end and a zero word leaves the controller unchanged. |
| TicTacToeControl.ComputerPlaysBestEmptySquare | lab7_tictactoe/ticTacToeControl.c:171-182 | On its turn in an unfinished game, the computer plays the mover's mark on an empty square at least as good as every other. |
| Plane.Init | lab8_missilecommand/plane.c:150-174 | The plane starts dead and unfired, off the left or right edge according to a random direction, at a third of the height. The firing point is in the middle half, and the cooldown is the tick count of the drawn 5 to 9 seconds, within the counts of the shortest and longest cooldown. |
| Plane.Tick | lab8_missilecommand/plane.c:177-240 | A tick fires exactly when the plane is flying, on screen, not hit and past its firing point without having fired. It fires from the plane's position and records the shot. |
| Plane.Explode | lab8_missilecommand/plane.c:243 | Explode raises the flag and changes nothing else. |
| Plane.GetXY | lab8_missilecommand/plane.c:246-249 | The position reported is the plane's. |
| Plane.InvFitsInt16 | lab8_missilecommand/plane.c:44-52 | The plane's coordinates always fit its 16-bit fields. |
| Plane.InitEstablishesInv | lab8_missilecommand/plane.c:150-174 | Initialisation establishes the plane invariant. |
| Plane.LongerCooldownWaitsLonger | lab8_missilecommand/plane.c:152-154 | A longer drawn cooldown never gives fewer ticks of waiting. |
| Plane.InitStartsOnCourse | lab8_missilecommand/plane.c:44-70 | A re-armed plane is neither off screen nor able to fire: it starts short of its firing point. |
| Plane.IsOffscreen | lab8_missilecommand/plane.c:44-52 | A plane off screen has passed, in its direction of travel, any firing point in the middle half of the display. |
| Plane.CanFireMissile | lab8_missilecommand/plane.c:57-70 | A plane that has fired cannot fire again. One that has not fired and has gone off screen has reached its firing point, so the test holds. |
| Plane.TickPreservesInv | lab8_missilecommand/plane.c:177-240 | A tick keeps the plane invariant. |
| Plane.TickTransitions | lab8_missilecommand/plane.c:177-240 | A dead plane flies once its cooldown has passed, and otherwise counts. A flying plane moves by its speed. Off screen or hit, it is re-initialised. |
| Plane.Run | lab8_missilecommand/plane.c:177-240 | Any number of ticks keeps the invariant. |
| Plane.AtMostOneShotPerFlight | lab8_missilecommand/plane.c:57-70 | Over any run the plane launches at most one missile per flight. |
| Plane.ExplodeThenTick | lab8_missilecommand/plane.c:182-206 | A flying plane that is hit is re-armed on its next tick without firing. |
| Missile.InitGeneral | lab8_missilecommand/missile.c:23-35 | The flight restarts at the origin with both flags cleared, and nothing else changes. |
| Missile.InitDead | lab8_missilecommand/missile.c:43-46 | Only the state changes, to dead. |
| Missile.InitEnemy | lab8_missilecommand/missile.c:56-70 | An enemy missile starts in the top quarter and aims at a point on the bottom edge. |
| Missile.NearestIsLeftmostNearest | lab8_missilecommand/missile.c:90-105 | The firing-point loop chooses the leftmost of the nearest firing points. |
| Missile.NearestByThresholds | lab8_missilecommand/missile.c:90-105 | The choice is the first point up to x = 120, the second up to 200, and the third beyond. |
| Missile.NearestFrom | lab8_missilecommand/missile.c:90-105 | The loop's origin is the one held before it or one of the firing points it has still to visit. |
| Missile.InitPlayer | lab8_missilecommand/missile.c:82-113 | A player missile leaves the bottom edge at the firing point nearest its destination and flies to the touched point. |
| Missile.InitPlane | lab8_missilecommand/missile.c:118-132 | A plane missile leaves the plane and aims at a point on the bottom edge. |
| Missile.Tick | lab8_missilecommand/missile.c:151-263 | A tick keeps the kind, origin, destination and flag, and moves only a flying missile. The impacted flag is set only when an enemy or plane missile lands, and it is then dead. |
| Missile.ExactlyOneQuery | lab8_missilecommand/missile.c:266-280 | Every missile is exactly one of dead, exploding and flying. |
| Missile.IsDead | lab8_missilecommand/missile.c:266-268 | A missile is dead exactly when it is neither flying nor exploding. |
| Missile.IsExploding | lab8_missilecommand/missile.c:272-275 | A missile is exploding exactly when it is neither flying nor dead. |
| Missile.IsFlying | lab8_missilecommand/missile.c:278-280 | A missile is flying exactly when it is neither dead nor exploding. |
| Missile.TriggerExplosion | lab8_missilecommand/missile.c:284-286 | Only the explosion flag changes. |
| Missile.TickTransitions | lab8_missilecommand/missile.c:169-250 | Each transition of the life cycle. A triggered or landing player missile explodes, a landing enemy or plane missile dies impacted, the explosion grows and then shrinks, and a dead missile stays. |
| Missile.TickNeverGoesBack | lab8_missilecommand/missile.c:169-250 | The state only moves forward through flying, growing, shrinking, dead. |
| Missile.OperationsKeepInv | lab8_missilecommand/missile.c:23-286 | Every operation keeps the invariant that an impacted missile is a dead enemy or plane missile. |
| Missile.DiesWithinThreeTicks | lab8_missilecommand/missile.c:169-250 | A missile that lands, reaches full radius and fades is dead within three ticks and stays dead. |
| Missile.DeadStays | lab8_missilecommand/missile.c:247-249 | A dead missile stays unchanged under any number of ticks. |
| MissileGame.Init | lab8_missilecommand/gameControl.c:97-116 | Every missile is made dead, the plane is initialised, and all statistics are zero. |
| MissileGame.RespawnEnemies | lab8_missilecommand/gameControl.c:127-133 | Every dead enemy missile is re-initialised and every live one kept, so no enemy missile is dead afterwards. The others are untouched. |
| MissileGame.FirstDeadPlayer | lab8_missilecommand/gameControl.c:146-154 | The search finds the first dead player missile, or reports that none is dead. |
| MissileGame.FirePlayer | lab8_missilecommand/gameControl.c:141-155 | The first dead player missile, if any, is fired at the touch and the shot count grows by one (mod 256). Otherwise nothing changes. |
| MissileGame.Collide | lab8_missilecommand/gameControl.c:163-198 | A flying enemy or plane missile is triggered exactly when it is inside some explosion, and player missiles are untouched. The plane is hit exactly when it is inside some explosion. |
| MissileGame.TickHalf | lab8_missilecommand/gameControl.c:200-212 | Exactly the missiles of the chosen half are ticked. |
| MissileGame.ImpactedCount | lab8_missilecommand/gameControl.c:220-226 | The count is zero exactly when no counted missile is impacted. |
| MissileGame.CountImpacts | lab8_missilecommand/gameControl.c:220-233 | The impact count grows by the impacted enemy missiles plus the plane missile, mod 256. Only the plane missile's flag is cleared. |
| MissileGame.RespawnAndFire | lab8_missilecommand/gameControl.c:127-155 | Enemies are respawned, and on a released touch the point is recorded and a player missile fired at it. |
| MissileGame.LaunchPlaneMissile | lab8_missilecommand/plane.c:182-206 | A shot from the plane re-initialises the plane missile from the plane's position, and no shot changes nothing. |
| MissileGame.Tick | lab8_missilecommand/gameControl.c:122-242 | A tick keeps the invariant, acknowledges exactly a released touch, saves the previous statistics and flips the half. It reprints exactly when a statistic changed or on the first tick, and leaves the plane missile unflagged. |
| MissileGame.HalvesAlternate | lab8_missilecommand/gameControl.c:200-215 | A missile ticked on one tick is not ticked on the next, and the other way round. |
| MissileGame.ShotsCountLaunches | lab8_missilecommand/gameControl.c:141-155 | The shot count grows by one exactly when a touch is released and some player missile is dead. |
| MissileGame.ImpactsAreNew | lab8_missilecommand/gameControl.c:200-226 | An enemy missile counted as impacted was ticked this tick, is dead, and was flying before if it was not already dead. |
| DrMarioBoard.SetTile | lab9_project/board.c:84 | Setting a tile changes that tile only. |
| DrMarioBoard.InitEmpty | lab9_project/board.c:26-34 | Every tile of the new board is empty. |
| DrMarioBoard.InitVirus | lab9_project/board.c:76-86 | The tile holds a virus of the given colour at that location, and no other tile changes. |
| DrMarioBoard.RandomizeColorAsWritten | lab9_project/board.c:89-98 | As written, the entity gets one of the three colours and nothing else changes. |
| DrMarioBoard.AsWrittenAlwaysYellow | lab9_project/board.c:89-98 | As written, the switch falls through every case, so every draw colours the entity yellow. |
| DrMarioBoard.RandomizeColor | lab9_project/board.c:89-98 | The intended randomisation gives one of the three colours and changes nothing else. |
| DrMarioBoard.RandomizeColorCoversColors | lab9_project/board.c:89-98 | Draws 0, 1 and 2 mod 3 give red, blue and yellow respectively, and draw 0 differs from the as-written result. |
| DrMarioBoard.EntityMove | lab9_project/board.c:101-115 | The entity's location becomes the target and the target tile holds it. Its old tile is cleared if it was on the board. No other tile changes. |
| DrMarioBoard.MoveThereAndBack | lab9_project/board.c:101-115 | Moving an entity to an empty tile and back restores the board and the entity. |
| DrMarioBoard.DrawnLocation | lab9_project/board.c:52-53 | A drawn location lies in the virus region below the cutoff row. |
| DrMarioBoard.PlaceNext | lab9_project/board.c:55-57 | Placing the next virus on an empty tile of the virus region keeps the placement invariant and the distinct locations. |
| DrMarioBoard.InitViruses | lab9_project/board.c:37-63 | Viruses are placed only on empty tiles in the virus region, each tile holds a distinct placed virus, and the k-th virus has the colour of its block. Each used draw's tile holds a placed virus and each placed virus sits on a used draw's tile. Placement stops early only when the draws run out. |
| DrMarioBoard.PlacementSparesTop | lab9_project/board.c:49-57 | A placement leaves every tile above the cutoff row empty. |
| DrMarioBoard.BlockCount | lab9_project/board.c:46-61 | Among the first n placed viruses, each colour appears as often as its block's share of n. |
| DrMarioBoard.CompletePlacementCounts | lab9_project/board.c:46-61 | A complete placement has exactly four viruses of each colour. |
| Pill.InitHidden | lab9_project/pill.c:10-24 | Both halves become empty entities at (255, 255), off the board, and the orientation is empty. |
| Pill.InitTop | lab9_project/pill.c:27-48 | Two pill halves are placed side by side at the start tiles, horizontally, and no other tile changes. As written both halves are yellow; with the intended colour draw each half takes the colour its draw selects. |
| Pill.CanMoveDown | lab9_project/pill.c:51-119 | A pill that can move down has, under each half its orientation checks, a tile that is on the board and empty. |
| Pill.CanMoveDownMeansFreeBelow | lab9_project/pill.c:51-119 | For each orientation, the test holds exactly when the tile under each bottom half is on the board and empty. |
| Pill.BottomRowBlocks | lab9_project/pill.c:51-119 | A pill whose bottom half is on the last row cannot move down. |
| Pill.NewPillCanMoveDown | lab9_project/pill.c:27-119 | A new pill, with either colour draw, on a freshly placed virus board can move down. |

## Left out

- Floating point: the program converts periods in seconds to tick or cycle counts with `ceil` and divisions. The count is a parameter (`cycles`, `settleTicks`, `delayTicks`, `updateTicks`, the instructions and wait counts, the plane's table of cooldown tick counts in `Config`).
- The seconds-to-cycles conversion and the division of the read count by the clock frequency in `intervalTimer_getTotalDurationInSeconds`: the model returns the 64-bit count.
- Register reads at run time: timer samples, pending words and button words are inputs. Device side effects, such as the count or T0INT clearing on its own, are not modelled; the register map holds what was last written.
- `interrupts_init`'s arming calls into the processor's exception layer, and the calls into the registered routines: a routine is an identifier and a call is an event in the trace.
- Drawing, printing, the display driver and `display_*` calls; the statistics text; `debugStatePrint`.
- Concurrency between the interrupt handler and the main loop; each tick is atomic here.
- The missile's travelled length, the `sqrt` of its total length, and the explosion radius: each tick receives whether the missile has arrived, its position, and whether the radius is full or gone. `missile_init_general` does not reset the radius; the outcome parameter makes that invisible.
- `point_isInExplosion` is floating point and is an input relation.
- `pill_move` only prints in the program (the movement code is commented out); it is not modelled.
- Pill halves and virus tiles point at stack variables in the program; here they are values, so the tile holds the entity and not a pointer. The program's occupancy test only compares with `NULL`, which the value model keeps.
- Pill.CanMoveDown: `pill_canMoveDown` with the empty orientation reaches the end of the function without returning; `ReadsInBounds` excludes that orientation and any index outside the board.
- `board_initViruses`' nested colour loop with its retry counter is restated as one loop over a finite list of draws: the k-th successful placement takes the colour of block k / 4, and a taken tile is skipped. When the draws run out before 12 viruses are placed, the model stops; the program would keep drawing. `numViruses` is unused by the program.
- config.h, display.h, minimax.h, ticTacToe.h, touchscreen.h and the lab 8 and lab 9 headers are not part of this model: their constants are stated in the module that uses them.
- buttons.c and switches.c (only the button word is used, as an input), gpioTest.c, the main programs, graphics.c, the lab 9 gameControl.c and interrupt_test.c are not part of this model.
- `ticTacToeDisplay_getLocationFromPoint`: the touched square is an input.
- IntervalTimer.InitCountUp: the comment above `intervalTimer_initCountUp` mentions clearing the load registers, but the code writes only the two control registers; the model follows the code.
- Minimax.Minimax: the `uint8_t depth` and the `minimax_score_t` results are unbounded integers here; the bound in the contract shows they stay far below 256 on a 3x3 board.
- Plane.Tick: the distance per tick comes from config.h, which is not part of this model, and is taken as a whole number of pixels. If it is fractional, the program's `int16_t` update truncates each step toward zero, so the step can depend on the direction and on the sign of x; that truncation is not modelled.
- Plane.TickTransitions: states the step as exactly plus or minus `speed`, under the same whole-pixel assumption as Plane.Tick.
- Missile.Tick: the floating-point position is whatever the outcome gives; the contract does not state that it lies on the line from origin to destination.

## Findings

| source | as written | input that shows it | evidently intended | confidence | as-written member | corrected member |
|---|---|---|---|---|---|---|
| drivers/intervalTimer.c:126-145 | The upper/lower/upper read loop compares each new upper word with the first one read and never updates it | the low half rolls over just after the first TCR1 read: TCR1 reads 0, TCR0 reads 5, TCR1 reads 1, TCR0 reads 6, TCR1 reads 1, and TCR1 stays 1, so the loop never leaves | compare the new upper word with the one read just before the lower word | not executed | IntervalTimer.ReadCountAsWritten, IntervalTimer.RolloverExample | IntervalTimer.ReadCount |
| lab9_project/board.c:89-98 | The `switch` on the colour code has no `break`, so every case falls through to yellow | draw 0 (code 0) gives yellow | code 0 red, 1 blue, 2 yellow | not executed | DrMarioBoard.AsWrittenAlwaysYellow, Pill.InitTop | DrMarioBoard.RandomizeColor, DrMarioBoard.RandomizeColorCoversColors |
| lab7_tictactoe/ticTacToeControl.c:205 | `buttons_read() && BTN0_MASK` is a logical and, true for any button | button word 0x2 (only button 1) restarts the game | `buttons_read() & BTN0_MASK`, only button 0 restarts | not executed | TicTacToeControl.TickAsWritten, TicTacToeControl.OtherButtonRestartsAsWritten | TicTacToeControl.Tick, TicTacToeControl.TicksAgree |
| lab6_clock/clockControl.c:147-151 | A release in fast update returns to waiting without `touchscreen_ack_touch()`, although the comment there says the touch is acknowledged | a release while in fast update: the next tick sees the release again and performs one extra increment or decrement | acknowledge the touch on that release | not executed | ClockControl.TickAsWritten, ClockControl.FastReleaseUpdatesOnceMore | ClockControl.Tick, ClockControl.FastReleaseAcknowledges |
