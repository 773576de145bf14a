# Snake game — a verified Dafny model

This project models the game logic of a grid-based snake game written in Python with pygame:

- the `Snake` object of `game/snake.py`. It keeps a head-first list of cells, a heading and a counter of growth still to apply.
- apple placement in `game/apple.py`. An apple goes on a randomly chosen free cell, or on (0, 0) when no cell is free.
- the session logic of `main.py`:
  - the results log (`save_result` writes a `time;name;score` line; `load_best_score` scans every line for the best score);
  - the main menu, where the player edits their name, the speed and the difficulty;
  - the difficulty presets and the speed clamps;
  - the per-frame update of a running game: move, crash checks, eating, speed-up, and saving the result once the game is over;
  - pause and steering, which are accepted only while the game is running.

The modules, one file each:

| module | file | contents |
|---|---|---|
| `Grid` | grid.dfy | cells and the bounds test |
| `SnakeModel` | snake.dfy | the abstract `SnakeState`, its step functions and their properties, and the class `Snake`, which mutates its fields in place and is proved against that state |
| `AppleModel` | apple.dfy | the `Apple` value, the free cells of the field and `SpawnRandom` |
| `Text` | text.dfy | the string operations the results log relies on: `strip`, `split(';')`, `str(int)` and `int(str)`, with round-trip lemmas |
| `ScoreLog` | score_log.dfy | the line format, `BestScore` (a fold) and the `LoadBestScore` loop |
| `Speed` | speed.dfy | the `min`/`max` speed clamps |
| `Menu` | menu.dfy | `run_menu` as a loop over its local variables, proved against a pure event-by-event function |
| `Session` | session.dfy | `run_game`: a pure `Game` state with `EventStep`, `TickStep` and `RunFrom`, the session invariant, and the class `GameSession`, which keeps run_game's local variables as fields and is proved against the pure functions |

Inputs the Python code takes from the outside world become parameters:

- the results file is a `seq<string>` of its lines, and a missing file is the empty sequence;
- the timestamp `datetime.now()` is a string `now` supplied with each frame;
- the value `random.choice` draws is a number `pick`, and the apple goes on free cell number `pick % |free cells|`. Every free cell can be selected this way (`EveryFreeCellReachable`);
- pygame input is a sequence of abstract events, and a mouse click arrives already resolved to the button it hit.

`Snake.grow` has no precondition on `amount`, just as in the source. The properties about growth assume that the pending count is not negative; the game itself only ever calls `grow()` with the default of 1.

## Model

| member | source | states |
|---|---|---|
| SnakeModel.Initial | game/snake.py:33-36 | a new snake is one cell at the start position, heading (1, 0), with nothing pending |
| SnakeModel.Snake.constructor | game/snake.py:20-36 | the object starts in the state `Initial` describes and keeps the given cell size |
| SnakeModel.Steer | game/snake.py:49-54 | an exact reversal or the zero vector leaves the heading unchanged; any other vector becomes the heading; a non-zero heading never becomes zero or its own reverse |
| SnakeModel.Snake.ChangeDirection | game/snake.py:39-54 | only the heading changes, and it becomes `Steer(old heading, (dx, dy))` |
| SnakeModel.SteerKeepsWellFormed | game/snake.py:49-54 | steering keeps the snake well formed (it has a head and a non-zero heading) |
| SnakeModel.Advance | game/snake.py:63-71 | the new head is the old head plus the heading; with growth pending, `body[1:]` is the old body, the length grows by 1 and one unit of growth is used up; otherwise `body[1:]` is the old body without its last cell and the length stays the same |
| SnakeModel.Snake.Move | game/snake.py:56-71 | the insert-at-front and pop of the object give exactly the state `Advance` describes |
| SnakeModel.AddGrowth | game/snake.py:79 | no contract of its own: `amount` more cells of growth are queued; `GrowThenAdvance` and `Snake.Grow` carry its meaning |
| SnakeModel.Snake.Grow | game/snake.py:73-79 | `amount` is added to the pending growth; body and heading are unchanged |
| SnakeModel.AdvanceN | game/snake.py:63-71 | any number of steps keeps a head and the heading |
| SnakeModel.AdvanceWhileGrowing | game/snake.py:68-69 | n steps with at least n units pending lengthen the body by exactly n and use up n units |
| SnakeModel.AdvanceKeepsLength | game/snake.py:70-71 | with nothing pending, any number of steps keeps the length |
| SnakeModel.GrowThenAdvance | game/snake.py:68-79 | `grow(n)` followed by n moves adds exactly n cells and leaves the pending count where it was |
| SnakeModel.ThreeMovesScenario | game/snake.py:63-71 | a snake at (5, 5) heading right is the single cell (8, 5) after three moves |
| SnakeModel.GrowScenario | game/snake.py:63-79 | `grow(3)` and three moves from (5, 5) give the body (8,5), (7,5), (6,5), (5,5) |
| SnakeModel.Collides | game/snake.py:104-105 | true exactly when the head occurs again at some later index of the body; never true for a body of length 1 |
| SnakeModel.SelfCollisionScenario | game/snake.py:49-71 | body (5,5), (5,6), (6,6), (6,5) heading right, steered down and moved once, collides with itself |
| SnakeModel.Snake.CheckSelfCollision | game/snake.py:97-105 | the answer is true exactly when the head occurs at some later index of the body |
| SnakeModel.Snake.HeadCell | game/snake.py:81-87 | the result is the first cell of the body, and that cell is part of the body |
| SnakeModel.Snake.BodyCells | game/snake.py:89-95 | the result is the whole body, which is never empty |
| AppleModel.CellOf | game/apple.py:66-72 | no contract of its own: the apple's cell; `CellOfBuilt` carries its meaning |
| AppleModel.CellOfBuilt | game/apple.py:66-72 | an apple reports exactly the cell it was built with |
| AppleModel.FreeInColumn | game/apple.py:57-58 | one column's free cells are exactly the unforbidden cells of that column from the start row, scanned in increasing y |
| AppleModel.FreeFromColumn | game/apple.py:54-59 | the free cells of the remaining columns are exactly their unforbidden cells, in x-major order |
| AppleModel.FreeCells | game/apple.py:54-59 | a cell is free exactly when it lies in `[0,cols) x [0,rows)` and is not forbidden; the list is in x-major order with no cell repeated |
| AppleModel.PickIndex | game/apple.py:62-63 | the random value selects a valid index, and every index can be selected |
| AppleModel.SpawnRandom | game/apple.py:34-64 | the apple keeps the cell size; when a free cell exists, it lies on the field and is not forbidden; when none exists, it is at (0, 0) |
| AppleModel.NoFreeCellIffFull | game/apple.py:54-61 | there is no free cell exactly when every cell of the field is forbidden |
| AppleModel.EveryFreeCellReachable | game/apple.py:62-64 | every free cell is the placement for some value of the random source |
| Text.StripLeftRemovesSpace | main.py:61 | stripping the front removes only whitespace and leaves a suffix that does not start with whitespace |
| Text.StripRightRemovesSpace | main.py:61 | stripping the back removes only whitespace and leaves a prefix that does not end with whitespace |
| Text.StripRightKeepsNonSpaceEnd | main.py:61 | a text that does not end with whitespace is unchanged by stripping the back |
| Text.Strip | main.py:61 | no contract of its own: `StripRight(StripLeft(s))`; `StripLeftRemovesSpace`, `StripRightRemovesSpace` and `StripSavedLine` carry its meaning |
| Text.IndexOf | main.py:61 | the first occurrence of the separator: nothing before it is a separator |
| Text.Split | main.py:61 | splitting yields at least one field |
| Text.JoinSplit | main.py:61 | joining the fields of a split gives the string back, and no field contains the separator |
| Text.SplitJoin | main.py:61 | splitting a join of separator-free fields gives the fields back |
| Text.SplitPrefix | main.py:61 | a separator-free first part is split off as the first field |
| Text.SplitAppend | main.py:61 | a separator-free last part becomes the last field |
| Text.NatToString | main.py:44 | a natural number's decimal text is non-empty and all digits |
| Text.NatToStringNoLeadingZero | main.py:44 | the text written for a number has no leading zero: zero is "0", and any other number starts with a digit other than 0 |
| Text.IntToString | main.py:44 | an integer's decimal text ends in a digit and holds only digits and `-` |
| Text.DigitsOfNat | main.py:44-64 | the digits written for n have the value n |
| Text.ParseInt | main.py:63-68 | a string parses exactly when it is one or more digits, or `+` or `-` followed by one or more digits; anything else, such as a non-digit after the first character or a first character other than a digit or sign, is refused (the `ValueError` that skips the line); digits denote their decimal value, and `-` negates it |
| Text.ParseFormattedInt | main.py:44-64 | `int(str(n)) == n` for every integer n |
| ScoreLog.FormatResult | main.py:42-44 | no contract of its own: the `time;name;score` line; `SavedLineFields`, `ReadBackSavedScore` and `BestScoreAfterSave` carry its meaning |
| ScoreLog.LineScore | main.py:61-64 | no contract of its own: the third `;`-field of the stripped line, parsed, when there are at least three fields; `BestScore`, `ReadBackSavedScore` and `SemicolonInNameMisreadsScore` carry its meaning |
| ScoreLog.BestScore | main.py:57-71 | the best score is at least 0, at least every score a line contributes, and is either 0 or the score of some line; lines without a third integer field contribute nothing |
| ScoreLog.LoadBestScore | main.py:47-71 | the line-by-line scan returns `BestScore` of the lines |
| ScoreLog.StripLeftBeforeSeparator | main.py:44-61 | leading whitespace stripped from `a;b` comes from `a` alone |
| ScoreLog.FormatResultShape | main.py:42-44 | a saved line is the time, a `;`, then the name, a `;` and the score text |
| ScoreLog.StripSavedLine | main.py:44-61 | stripping a saved line removes only whitespace in front of the time |
| ScoreLog.SavedLineFields | main.py:44-61 | a saved line splits into the time, the fields of the name, and the score text |
| ScoreLog.ReadBackSavedScore | main.py:44-64 | when neither the time nor the name holds `;`, a saved line reads back as exactly the saved score |
| ScoreLog.BestScoreAfterSave | main.py:44-71 | appending a saved line makes the best score the larger of the old best and the new score |
| ScoreLog.BestScoreOfTwoLines | main.py:55-71 | a log of two lines that read back as two scores has the larger of 0 and both as its best score |
| ScoreLog.BestScoreOfTwoSaves | main.py:44-71 | after two saved games the best score is the larger of 0 and the two scores |
| ScoreLog.TwoPlayersScenario | main.py:44-71 | a log with Alice's 5 and then Bob's 9 has best score 9 |
| ScoreLog.NameWithSeparatorShiftsScore | main.py:42-64 | a name `first;second` pushes the score out of the third field: the line reads back as `second` parsed |
| ScoreLog.SemicolonInNameMisreadsScore | main.py:42-64 | a name is not checked for `;`, and then the line saved for "a;7" with score 1 reads back as 7 |
| Speed.SpeedUp | main.py:215-216 | one step up, but never above the cap; a speed at or above the cap becomes the cap |
| Speed.SpeedDown | main.py:213-214 | one step down, but never below the floor; a speed at or below the floor becomes the floor |
| Speed.Max | main.py:303-307 | the larger of the two values, as `max` in the easy and hard presets |
| Speed.AdjustStaysInRange | main.py:362-365 | both adjustments keep a speed within `[lo, hi]` |
| Menu.EditName | main.py:191-198 | no contract of its own: Return leaves the field, Backspace applies `DropLast`, a printable key extends a name shorter than 12; `EventKeepsInvariant` and `TypeThenBackspace` carry its meaning |
| Menu.Click | main.py:200-218 | no contract of its own: a click activates the name field exactly when it hits it, and the speed buttons and the difficulty button adjust their values; `EventKeepsInvariant` and `DifficultyCycles` carry its meaning |
| Menu.RunMenuFrom | main.py:178-222 | no contract of its own: the outcome of the menu loop fed a sequence of events; `StartedChoiceIsValid` and `RunMenu` carry its meaning |
| Menu.DropLast | main.py:194-195 | Backspace removes exactly the last character; an empty name stays empty |
| Menu.TypeThenBackspace | main.py:193-198 | typing a printable character into a short name and then Backspace gives the name back |
| Menu.DifficultyCycles | main.py:217-218 | three clicks on the difficulty button return to the same difficulty |
| Menu.StartChoice | main.py:219-222 | an empty name becomes "Player" and any other name is kept, so the name is never empty; the speed is passed on; the difficulty is `Difficulties[diffIndex]`, one of easy, normal, hard |
| Menu.EventKeepsInvariant | main.py:191-218 | name editing and clicks keep the speed within [3, 25], a valid difficulty index, and a name of at most 12 characters |
| Menu.StartedChoiceIsValid | main.py:132-222 | for any event sequence, a started game gets a non-empty name of at most 12 characters, a speed within [3, 25] and a valid difficulty |
| Menu.RunMenu | main.py:132-222 | the loop over the menu's local variables returns exactly what the event-by-event definition `RunMenuFrom` gives; a started game has a non-empty name and a valid difficulty |
| Session.PresetFor | main.py:303-311 | easy gives speed `max(5, base)` and a speed-up every 7 apples; hard gives `max(15, base)` and every 4; anything else keeps `base` and every 5; the speed is never below `base` |
| Session.PresetSpeedInRange | main.py:303-311 | a menu speed within [3, 25] gives a starting speed within [3, 25] for every difficulty |
| Session.ConfigFor | main.py:303-311 | the speed-up interval is the one `PresetFor` gives the difficulty (7, 4 or 5), and so is positive; the name and the field size are the arguments |
| Session.InitialGame | main.py:328-338 | no contract of its own: the state run_game sets up; `InitialGameInvariant` and `GameSession.constructor` carry its meaning |
| Session.KeyStep | main.py:358-378 | Escape stops the loop and nothing else does; `+` and `-` give `SpeedUp`/`SpeedDown` of the speed and every other key leaves it; pause flips exactly on P while the game is not over; a steering key sets the heading to `Steer(old heading, key's heading)` while the game is neither over nor paused, and the heading stays otherwise; score, log, game-over flag, apple, body and best score never change |
| Session.EventStep | main.py:356-394 | a key press acts as `KeyStep`; a Quit click after game over stops the loop and changes nothing else; every other click, and every other event, changes nothing; no event changes score, log, game-over flag, apple or body |
| Session.EventsStep | main.py:353-394 | a frame's events never change score, log, game-over flag, apple or body; a restart is reported only after game over |
| Session.EventsStepRestart | main.py:380-392 | a frame's events report a restart exactly when the game is over and one of them is a click on the restart button |
| Session.TickStep | main.py:396-423 | a paused or finished game is left as it is; pause and running are kept; the score goes up by at most 1; game over is never undone; a line is appended to the log exactly when this tick ends the game |
| Session.RunFrame | main.py:350-423 | a frame keeps a snake with a head |
| Session.RunFrom | main.py:350-423 | the session keeps a snake with a head through any frames |
| Session.TickOffField | main.py:396-423 | a head off the field ends the game without eating: the snake has moved, the result line is saved and the best score becomes `max(best, score)`; nothing else changes (score, speed, apple, pause and running kept) |
| Session.TickSelfCollision | main.py:405-423 | a head on the body ends the game in the same way: the snake has moved, the line is saved, the best score becomes `max(best, score)`, and nothing else changes |
| Session.TickEats | main.py:410-418 | a head on the apple: score + 1, the moved snake with one more cell of growth and the same heading, pause, running and best score kept, the new apple on the field and off the whole body (head included) whenever a free cell exists, and a speed-up exactly when the new score is a multiple of the interval |
| Session.TickPlainMove | main.py:396-410 | without a crash or an apple, only the snake moves |
| Session.InitialGameInvariant | main.py:331-338 | the state run_game sets up satisfies the whole invariant: speed within [3, 30], a well-formed snake on the field with no overlap, and the best score equal to the log's best |
| Session.AdvanceKeepsShape | main.py:396-408 | a step that does not crash keeps the body on the field and free of overlaps |
| Session.CrashKeepsInvariant | main.py:396-423 | a crash keeps the shape-and-speed invariant for any name; when neither the name nor the time holds `;`, the shown best score still equals the best score of the log with the new line |
| Session.MoveKeepsInvariant | main.py:396-418 | a step without a crash keeps the shape-and-speed invariant for any name, and leaves the log and the best score unchanged |
| Session.TickKeepsInvariant | main.py:396-423 | every tick keeps the shape-and-speed invariant for any name; the best score shown keeps following the log when the name and the time hold no `;` |
| Session.EventStepKeepsInvariant | main.py:358-394 | every event keeps the shape-and-speed invariant (the speed stays within [3, 30], the heading never becomes zero) and leaves the log and the best score unchanged |
| Session.EventsStepKeepsInvariant | main.py:353-394 | every run of events keeps the shape-and-speed invariant and the best score |
| Session.RunKeepsInvariant | main.py:350-423 | every state the session reaches satisfies the shape-and-speed invariant, for any input and any name: speed within [3, 30], a well-formed snake with no negative growth, and, while the game is not over, a body on the field with no overlap; the best score shown equals the log's best whenever the name and the frame times hold no `;` |
| Session.GameOverIsFinal | main.py:367-396 | once the game is over, later frames change neither pause, body, score, apple, log nor best score |
| Session.EventsStepKeepsPause | main.py:367-368 | after game over, events never toggle pause or touch the best score |
| Session.SavedOnce | main.py:396-421 | over a whole session the log gains exactly one line if the game ended and none otherwise, and the earlier lines stay as they were |
| Session.GameSession.constructor | main.py:328-338 | the object starts in the state `InitialGame` describes: a preset speed, a snake in the middle of the field, the first apple, and the best score loaded from the log |
| Session.GameSession.HandleEvent | main.py:356-394 | the object's update equals `EventStep`; a restart is reported exactly when a restart click arrives after game over, and then nothing changes |
| Session.GameSession.Tick | main.py:396-423 | the object's update equals `TickStep` |
| Session.GameSession.EatApple | main.py:409-417 | a head on the apple adds a point, a segment to grow and a new apple spawned away from the body, and speeds up every `applesPerSpeedup` apples; nothing else changes |
| Session.GameSession.RecordResult | main.py:419-422 | a finished game appends its saved line to the log and raises the best score to the game's score if higher; nothing else changes |
| Session.GameSession.Run | main.py:350-423 | the nested frame and event loops give exactly what `RunFrom` gives |

## Left out

- Drawing is left out: `Snake.draw`, `Apple.draw`, `BaseSquare.rect` and `draw`, `draw_background`, overlays, text and scaling of the virtual surface. It is presentation through pygame.
- Colours are left out. They are a drawing attribute and never affect game state.
- Sounds are left out. They are optional and have no effect on state.
- The window, the frame clock (`clock.tick`), event polling and `main()` are left out. They are I/O; input is modelled as a sequence of events.
- `pygame.QUIT` and Escape in the menu, which call `sys.exit()`, end the menu as `Exited`. In a game, `pygame.QUIT` is not modelled, because it exits the process.
- Mapping a mouse position to a button is left out. That step is float scaling plus pygame's rectangle hit test; a click arrives already resolved to what it hit.
- The distribution of `random.choice` is not modelled, only which cells can be chosen.
- `datetime.now().strftime(...)` is not modelled. The time is a string parameter; lemmas that read a line back require it to hold no `;`, which a strftime timestamp never does.
- Real file reads and appends are not modelled. The log is the sequence of its lines; a missing file is the empty sequence; an `OSError` other than a missing file is not modelled.
- A name containing a line break would split its record across two lines of the real file. The model keeps one saved record as one line.
- Text.ParseInt: surrounding whitespace, `_` separators and non-ASCII digits, which Python's `int()` accepts, are not modelled. The field being parsed has already been stripped, except for whitespace inside the separators.
- Text.StripLeftRemovesSpace, Text.StripRightRemovesSpace, Text.Strip: `str.strip` is modelled for ASCII whitespace only. Unicode whitespace such as U+00A0 or U+2028 is not treated as space.
- Menu.EventKeepsInvariant: `str.isprintable()` is modelled as "no control character below 32 or in 127..159". Other non-printable Unicode categories are treated as printable. The 12-character bound is proved for key presses that type at most one character, which is what pygame delivers.
- Session.InitialGameInvariant: run_game always uses a 15 x 15 field (`GridCols`, `GridRows`). The model takes the field size as a parameter of `ConfigFor` and of the `GameSession` constructor, and the invariant is proved for every field of at least one cell.
- Session.RunKeepsInvariant: the best score shown equals the best score of the results file only for names and times without `;`. A name with `;`, which the menu accepts, is misread when the log is scanned (`SemicolonInNameMisreadsScore`), so the two can differ. The speed and shape parts of the invariant are proved for every name.
- The session invariant (`GameInvariant`) puts no constraint on the apple. An apple spawned while the body fills the whole field sits at (0, 0), possibly on the body, as in the source.
