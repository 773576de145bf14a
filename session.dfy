/**
 * One play-through of main.py's run_game. The pure part (Game, EventStep,
 * TickStep, RunFrom) is the specification of a frame-by-frame session; the class
 * GameSession keeps run_game's local variables as fields and is proved against it.
 * Drawing, sounds, the frame clock and the window are left out; each frame
 * brings its input events, the value the random source yields for a
 * re-spawn and the current time as text.
 */
module Session {
  import opened Grid
  import opened SnakeModel
  import opened AppleModel
  import opened ScoreLog
  import opened Speed

  const VirtualWidth := 1300
  const GridCols := 15
  const GridRows := 15
  const CellSize := VirtualWidth / GridCols
  const MinSpeed := 3
  const MaxSpeed := 30

  /** A difficulty preset: the initial speed and how many apples make the game one step faster. */
  datatype Preset = Preset(speed: int, applesPerSpeedup: int)

  /** The difficulty presets of run_game: easy, hard, and anything else as normal. */
  function PresetFor(difficulty: string, baseSpeed: int): (p: Preset)
    ensures p.speed >= baseSpeed && p.applesPerSpeedup > 0
    ensures difficulty == "easy" ==> p == Preset(Max(5, baseSpeed), 7)
    ensures difficulty == "hard" ==> p == Preset(Max(15, baseSpeed), 4)
    ensures difficulty != "easy" && difficulty != "hard" ==> p == Preset(baseSpeed, 5)
  {
    if difficulty == "easy" then Preset(Max(5, baseSpeed), 7)
    else if difficulty == "hard" then Preset(Max(15, baseSpeed), 4)
    else Preset(baseSpeed, 5)
  }

  /** A speed chosen in the menu, in [3, 25], starts the game within [3, 25] whatever the difficulty. */
  lemma PresetSpeedInRange(difficulty: string, baseSpeed: int)
    requires 3 <= baseSpeed <= 25
    ensures 3 <= PresetFor(difficulty, baseSpeed).speed <= 25
  {
  }

  /** What stays fixed during a session: the field, the cell size, the name and the speed-up interval. */
  datatype Config = Config(cols: int, rows: int, cellSize: int, playerName: string, applesPerSpeedup: int)

  /** The configuration of a session on a cols x rows field (run_game passes GridCols and GridRows). */
  function ConfigFor(cols: int, rows: int, playerName: string, difficulty: string, baseSpeed: int): (cfg: Config)
    ensures cfg.applesPerSpeedup > 0
    ensures cfg.applesPerSpeedup == PresetFor(difficulty, baseSpeed).applesPerSpeedup
    ensures cfg.playerName == playerName && cfg.cols == cols && cfg.rows == rows && cfg.cellSize == CellSize
  {
    Config(cols, rows, CellSize, playerName, PresetFor(difficulty, baseSpeed).applesPerSpeedup)
  }

  /** The keys run_game reacts to (several physical keys map to each). */
  datatype GameKey = Escape | Plus | Minus | Pause | Up | Down | Left | Right | OtherKey

  /** The buttons of the game-over screen. */
  datatype GameTarget = RestartButton | QuitButton | Elsewhere

  /** One input event of a frame. */
  datatype GameEvent = KeyDown(key: GameKey) | LeftClick(target: GameTarget) | OtherEvent

  /** The input of one frame: its events, the random source's value and the time as text. */
  datatype Frame = Frame(events: seq<GameEvent>, pick: nat, now: string)

  /** The local state of run_game between frames. */
  datatype Game = Game(snake: SnakeState, apple: Apple, score: int, speed: int, paused: bool,
                       gameOver: bool, running: bool, bestScore: int, log: seq<string>)

  /** The state run_game sets up before its loop; `log` is the results file, `pick` the first random value. */
  function InitialGame(cfg: Config, baseSpeed: int, difficulty: string, log: seq<string>, pick: nat): (g: Game)
  {
    var snake := Initial(cfg.cols / 2, cfg.rows / 2);
    Game(snake, SpawnRandom(cfg.cols, cfg.rows, cfg.cellSize, snake.body, pick), 0,
         PresetFor(difficulty, baseSpeed).speed, false, false, true, BestScore(log), log)
  }

  /** The heading a steering key asks for. */
  function Heading(k: GameKey): Cell
    requires IsSteering(k)
  {
    match k
    case Up => (0, -1)
    case Down => (0, 1)
    case Left => (-1, 0)
    case Right => (1, 0)
  }

  /** The keys that steer the snake. */
  predicate IsSteering(k: GameKey) {
    k.Up? || k.Down? || k.Left? || k.Right?
  }

  /** A key press: Escape stops the loop, +/- adjust the speed, P toggles pause, arrows steer. */
  function KeyStep(g: Game, k: GameKey): (r: Game)
    ensures r.score == g.score && r.log == g.log && r.gameOver == g.gameOver && r.apple == g.apple
    ensures r.bestScore == g.bestScore
    ensures r.snake.body == g.snake.body && r.snake.growPending == g.snake.growPending
    ensures r.running == (g.running && k != Escape)
    ensures k == Plus ==> r.speed == SpeedUp(g.speed, MaxSpeed)
    ensures k == Minus ==> r.speed == SpeedDown(g.speed, MinSpeed)
    ensures k != Plus && k != Minus ==> r.speed == g.speed
    ensures r.paused != g.paused <==> k == Pause && !g.gameOver
    ensures IsSteering(k) && !g.gameOver && !g.paused ==>
      r.snake.direction == Steer(g.snake.direction, Heading(k))
    ensures !(IsSteering(k) && !g.gameOver && !g.paused) ==> r.snake.direction == g.snake.direction
  {
    var g1 := if k == Escape then g.(running := false) else g;
    var g2 := if k == Plus then g1.(speed := SpeedUp(g1.speed, MaxSpeed))
              else if k == Minus then g1.(speed := SpeedDown(g1.speed, MinSpeed))
              else g1;
    var g3 := if k == Pause && !g2.gameOver then g2.(paused := !g2.paused) else g2;
    if !g3.gameOver && !g3.paused && IsSteering(k) then
      g3.(snake := g3.snake.(direction := Steer(g3.snake.direction, Heading(k))))
    else g3
  }

  /** A click on the game-over screen's restart button ends run_game asking for a new game. */
  predicate Restarts(g: Game, e: GameEvent) {
    g.gameOver && e == LeftClick(RestartButton)
  }

  /** One event; clicks count only once the game is over, and a click on Quit stops the loop. */
  function EventStep(g: Game, e: GameEvent): (r: Game)
    ensures r.score == g.score && r.log == g.log && r.gameOver == g.gameOver && r.apple == g.apple
    ensures r.snake.body == g.snake.body && r.snake.growPending == g.snake.growPending
    ensures e.KeyDown? ==> r == KeyStep(g, e.key)
    ensures e == LeftClick(QuitButton) && g.gameOver ==> r == g.(running := false)
    ensures e.LeftClick? && !(e.target == QuitButton && g.gameOver) ==> r == g
    ensures e.OtherEvent? ==> r == g
  {
    match e
    case KeyDown(k) => KeyStep(g, k)
    case LeftClick(t) => if g.gameOver && t == QuitButton then g.(running := false) else g
    case OtherEvent => g
  }

  /** The state after a frame's events, and whether one of them asked for a restart (which stops at once). */
  datatype Handled = Handled(game: Game, restart: bool)

  function EventsStep(g: Game, events: seq<GameEvent>): (h: Handled)
    ensures h.game.score == g.score && h.game.log == g.log && h.game.gameOver == g.gameOver
    ensures h.game.apple == g.apple && h.game.snake.body == g.snake.body
    ensures h.game.snake.growPending == g.snake.growPending
    ensures h.restart ==> g.gameOver
    decreases |events|
  {
    if events == [] then Handled(g, false)
    else if Restarts(g, events[0]) then Handled(g, true)
    else EventsStep(EventStep(g, events[0]), events[1..])
  }

  /**
   * run_game returns True exactly when, after game over, the player clicks the
   * restart button: a frame's events report a restart exactly in that case.
   */
  lemma {:induction false} EventsStepRestart(g: Game, events: seq<GameEvent>)
    ensures EventsStep(g, events).restart <==> g.gameOver && LeftClick(RestartButton) in events
    decreases |events|
  {
    if events != [] {
      assert events == [events[0]] + events[1..];
      if !Restarts(g, events[0]) {
        EventsStepRestart(EventStep(g, events[0]), events[1..]);
      }
    }
  }

  /** The head hits a wall or the body after the step. */
  predicate Crashes(moved: SnakeState, cfg: Config)
    requires |moved.body| >= 1
  {
    !InGrid(moved.body[0], cfg.cols, cfg.rows) || Collides(moved.body)
  }

  /**
   * The per-frame update of run_game: move; a head off the field, or else on
   * the body, ends the game and saves the result; else a head on the apple
   * scores, grows the snake, re-spawns the apple away from the whole body and
   * may speed the game up.
   */
  function TickStep(g: Game, cfg: Config, pick: nat, now: string): (r: Game)
    requires |g.snake.body| >= 1 && cfg.applesPerSpeedup > 0
    ensures |r.snake.body| >= 1
    ensures g.gameOver || g.paused ==> r == g
    ensures r.paused == g.paused && r.running == g.running
    ensures g.score <= r.score <= g.score + 1
    ensures g.gameOver ==> r.gameOver
    ensures r.log == if r.gameOver && !g.gameOver then g.log + [FormatResult(now, cfg.playerName, r.score)] else g.log
  {
    if g.gameOver || g.paused then g
    else
      var moved := Advance(g.snake);
      if Crashes(moved, cfg) then
        g.(snake := moved, gameOver := true,
           log := g.log + [FormatResult(now, cfg.playerName, g.score)],
           bestScore := if g.score > g.bestScore then g.score else g.bestScore)
      else if moved.body[0] == CellOf(g.apple) then
        var grown := AddGrowth(moved, 1);
        var score := g.score + 1;
        g.(snake := grown, score := score,
           apple := SpawnRandom(cfg.cols, cfg.rows, cfg.cellSize, grown.body, pick),
           speed := if score % cfg.applesPerSpeedup == 0 then SpeedUp(g.speed, MaxSpeed) else g.speed)
      else
        g.(snake := moved)
  }

  /** One frame: the events, then (unless a restart was asked for) one tick. */
  function RunFrame(g: Game, cfg: Config, f: Frame): (h: Handled)
    requires |g.snake.body| >= 1 && cfg.applesPerSpeedup > 0
    ensures |h.game.snake.body| >= 1
  {
    var handled := EventsStep(g, f.events);
    if handled.restart then handled
    else Handled(TickStep(handled.game, cfg, f.pick, f.now), false)
  }

  /** run_game's loop: frames run while `running` holds and no restart was asked for. */
  function RunFrom(g: Game, cfg: Config, frames: seq<Frame>): (h: Handled)
    requires |g.snake.body| >= 1 && cfg.applesPerSpeedup > 0
    ensures |h.game.snake.body| >= 1
    decreases |frames|
  {
    if frames == [] || !g.running then Handled(g, false)
    else
      var h := RunFrame(g, cfg, frames[0]);
      if h.restart then h else RunFrom(h.game, cfg, frames[1..])
  }

  // ---------------------------------------------------------------------------
  // Properties of one tick

  /** A head off the field ends the game: nothing is eaten, the apple stays, the result is saved. */
  lemma TickOffField(g: Game, cfg: Config, pick: nat, now: string)
    requires |g.snake.body| >= 1 && cfg.applesPerSpeedup > 0 && !g.gameOver && !g.paused
    requires !InGrid(Advance(g.snake).body[0], cfg.cols, cfg.rows)
    ensures var r := TickStep(g, cfg, pick, now);
      r.gameOver && r.score == g.score && r.apple == g.apple && r.snake == Advance(g.snake) &&
      r.log == g.log + [FormatResult(now, cfg.playerName, g.score)] &&
      r.bestScore == Max(g.score, g.bestScore) && r.speed == g.speed
    ensures TickStep(g, cfg, pick, now) ==
      g.(snake := Advance(g.snake), gameOver := true,
         log := g.log + [FormatResult(now, cfg.playerName, g.score)], bestScore := Max(g.score, g.bestScore))
  {
  }

  /** A head on its own body ends the game in the same way. */
  lemma TickSelfCollision(g: Game, cfg: Config, pick: nat, now: string)
    requires |g.snake.body| >= 1 && cfg.applesPerSpeedup > 0 && !g.gameOver && !g.paused
    requires Collides(Advance(g.snake).body)
    ensures var r := TickStep(g, cfg, pick, now);
      r.gameOver && r.score == g.score && r.apple == g.apple && r.snake == Advance(g.snake) &&
      r.log == g.log + [FormatResult(now, cfg.playerName, g.score)] &&
      r.bestScore == Max(g.score, g.bestScore) && r.speed == g.speed
    ensures TickStep(g, cfg, pick, now) ==
      g.(snake := Advance(g.snake), gameOver := true,
         log := g.log + [FormatResult(now, cfg.playerName, g.score)], bestScore := Max(g.score, g.bestScore))
  {
  }

  /**
   * Eating: the score goes up by one, one more cell of growth is queued, and
   * the new apple lies on the field away from every body cell, the head
   * included, whenever a free cell exists.
   */
  lemma TickEats(g: Game, cfg: Config, pick: nat, now: string)
    requires |g.snake.body| >= 1 && cfg.applesPerSpeedup > 0 && !g.gameOver && !g.paused
    requires !Crashes(Advance(g.snake), cfg) && Advance(g.snake).body[0] == CellOf(g.apple)
    ensures var r := TickStep(g, cfg, pick, now);
      && !r.gameOver && r.score == g.score + 1 && r.log == g.log
      && r.snake.body == Advance(g.snake).body
      && r.snake.growPending == Advance(g.snake).growPending + 1
      && r.snake == AddGrowth(Advance(g.snake), 1) && r.snake.direction == g.snake.direction
      && r.apple == SpawnRandom(cfg.cols, cfg.rows, cfg.cellSize, r.snake.body, pick)
      && r.paused == g.paused && r.running == g.running && r.bestScore == g.bestScore
      && (FreeCells(cfg.cols, cfg.rows, r.snake.body) != [] ==>
            CellOf(r.apple) !in r.snake.body && InGrid(CellOf(r.apple), cfg.cols, cfg.rows))
      && (r.score % cfg.applesPerSpeedup == 0 ==> r.speed == SpeedUp(g.speed, MaxSpeed))
      && (r.score % cfg.applesPerSpeedup != 0 ==> r.speed == g.speed)
  {
  }

  /** A plain step: the snake moves and nothing else changes. */
  lemma TickPlainMove(g: Game, cfg: Config, pick: nat, now: string)
    requires |g.snake.body| >= 1 && cfg.applesPerSpeedup > 0 && !g.gameOver && !g.paused
    requires !Crashes(Advance(g.snake), cfg) && Advance(g.snake).body[0] != CellOf(g.apple)
    ensures TickStep(g, cfg, pick, now) == g.(snake := Advance(g.snake))
  {
  }

  // ---------------------------------------------------------------------------
  // The session invariant

  /** The body's cells are pairwise distinct. */
  predicate NoOverlap(body: seq<Cell>) {
    forall i, j :: 0 <= i < j < |body| ==> body[i] != body[j]
  }

  /** Every body cell is on the field. */
  predicate OnField(body: seq<Cell>, cfg: Config) {
    forall i :: 0 <= i < |body| ==> InGrid(body[i], cfg.cols, cfg.rows)
  }

  /**
   * What holds of every state run_game reaches from a menu choice, whatever
   * the player's name: the speed stays in [3, 30], the snake is well formed
   * with no negative growth, the score is not negative, and while the game is
   * not over the snake lies on the field without overlapping itself.
   */
  predicate ShapeInvariant(g: Game, cfg: Config) {
    && MinSpeed <= g.speed <= MaxSpeed
    && WellFormed(g.snake) && g.snake.growPending >= 0
    && g.score >= 0
    && (!g.gameOver ==> OnField(g.snake.body, cfg) && NoOverlap(g.snake.body))
  }

  /** The best score shown equals the best score of the results file. */
  predicate BestShown(g: Game) {
    g.bestScore == BestScore(g.log)
  }

  /** The whole invariant of a session whose name holds no `;`. */
  predicate GameInvariant(g: Game, cfg: Config) {
    ShapeInvariant(g, cfg) && BestShown(g)
  }

  /** The state set up from a menu choice satisfies the invariant. */
  lemma InitialGameInvariant(cfg: Config, baseSpeed: int, difficulty: string, log: seq<string>, pick: nat)
    requires 3 <= baseSpeed <= 25 && cfg.cols >= 1 && cfg.rows >= 1
    ensures GameInvariant(InitialGame(cfg, baseSpeed, difficulty, log, pick), cfg)
  {
    PresetSpeedInRange(difficulty, baseSpeed);
    var g := InitialGame(cfg, baseSpeed, difficulty, log, pick);
    assert g.snake.body == [(cfg.cols / 2, cfg.rows / 2)];
  }

  /** A non-crashing step of a snake that lies on the field without overlap keeps it so. */
  lemma {:induction false} AdvanceKeepsShape(s: SnakeState, cfg: Config)
    requires |s.body| >= 1 && OnField(s.body, cfg) && NoOverlap(s.body)
    requires !Crashes(Advance(s), cfg)
    ensures OnField(Advance(s).body, cfg) && NoOverlap(Advance(s).body)
  {
    var body := Advance(s).body;
    var rest := body[1..];
    assert forall k :: 0 <= k < |rest| ==> rest[k] == s.body[k];
    forall i, j | 0 <= i < j < |body|
      ensures body[i] != body[j]
    {
      if i == 0 {
        assert body[j] == rest[j - 1];
      } else {
        assert body[i] == s.body[i - 1] && body[j] == s.body[j - 1];
      }
    }
    forall i | 0 <= i < |body|
      ensures InGrid(body[i], cfg.cols, cfg.rows)
    {
      if i > 0 {
        assert body[i] == s.body[i - 1];
      }
    }
  }

  /**
   * A crash keeps the shape invariant for any name; the best score shown keeps
   * following the log when neither the name nor the time holds a `;`.
   */
  lemma CrashKeepsInvariant(g: Game, cfg: Config, pick: nat, now: string)
    requires ShapeInvariant(g, cfg) && cfg.applesPerSpeedup > 0 && !g.gameOver && !g.paused
    requires Crashes(Advance(g.snake), cfg)
    ensures ShapeInvariant(TickStep(g, cfg, pick, now), cfg)
    ensures BestShown(g) && ';' !in cfg.playerName && ';' !in now ==> BestShown(TickStep(g, cfg, pick, now))
  {
    if BestShown(g) && ';' !in cfg.playerName && ';' !in now {
      BestScoreAfterSave(g.log, now, cfg.playerName, g.score);
    }
  }

  /** A step without a crash keeps the shape invariant and leaves the log and the best score alone. */
  lemma MoveKeepsInvariant(g: Game, cfg: Config, pick: nat, now: string)
    requires ShapeInvariant(g, cfg) && cfg.applesPerSpeedup > 0 && !g.gameOver && !g.paused
    requires !Crashes(Advance(g.snake), cfg)
    ensures ShapeInvariant(TickStep(g, cfg, pick, now), cfg)
    ensures TickStep(g, cfg, pick, now).log == g.log && TickStep(g, cfg, pick, now).bestScore == g.bestScore
  {
    AdvanceKeepsShape(g.snake, cfg);
    AdjustStaysInRange(g.speed, MinSpeed, MaxSpeed);
    var r := TickStep(g, cfg, pick, now);
    assert r.log == g.log && r.bestScore == g.bestScore;
    assert r.snake.body == Advance(g.snake).body;
  }

  /** One tick keeps the shape invariant for any name, and the best score shown when the name and time hold no `;`. */
  lemma TickKeepsInvariant(g: Game, cfg: Config, pick: nat, now: string)
    requires ShapeInvariant(g, cfg) && cfg.applesPerSpeedup > 0
    ensures ShapeInvariant(TickStep(g, cfg, pick, now), cfg)
    ensures BestShown(g) && ';' !in cfg.playerName && ';' !in now ==> BestShown(TickStep(g, cfg, pick, now))
  {
    if !g.gameOver && !g.paused {
      if Crashes(Advance(g.snake), cfg) {
        CrashKeepsInvariant(g, cfg, pick, now);
      } else {
        MoveKeepsInvariant(g, cfg, pick, now);
      }
    }
  }

  /** Any event keeps the shape invariant (the speed stays clamped, steering never zeroes the heading) and the best score shown. */
  lemma EventStepKeepsInvariant(g: Game, cfg: Config, e: GameEvent)
    requires ShapeInvariant(g, cfg)
    ensures ShapeInvariant(EventStep(g, e), cfg)
    ensures EventStep(g, e).log == g.log && EventStep(g, e).bestScore == g.bestScore
  {
    AdjustStaysInRange(g.speed, MinSpeed, MaxSpeed);
    var r := EventStep(g, e);
    assert r.log == g.log && r.bestScore == g.bestScore;
    assert r.snake.direction != (0, 0);
  }

  lemma {:induction false} EventsStepKeepsInvariant(g: Game, cfg: Config, events: seq<GameEvent>)
    requires ShapeInvariant(g, cfg)
    ensures ShapeInvariant(EventsStep(g, events).game, cfg)
    ensures EventsStep(g, events).game.bestScore == g.bestScore
    decreases |events|
  {
    if events != [] && !Restarts(g, events[0]) {
      EventStepKeepsInvariant(g, cfg, events[0]);
      EventsStepKeepsInvariant(EventStep(g, events[0]), cfg, events[1..]);
    }
  }

  /** The frame times carry no `;` (a strftime timestamp never does). */
  predicate PlainTimes(frames: seq<Frame>) {
    forall i :: 0 <= i < |frames| ==> ';' !in frames[i].now
  }

  /**
   * Every state of a session satisfies the shape invariant, for any input and
   * any name; the best score shown follows the results file whenever the
   * name and the frame times hold no `;`.
   */
  lemma {:induction false} RunKeepsInvariant(g: Game, cfg: Config, frames: seq<Frame>)
    requires ShapeInvariant(g, cfg) && cfg.applesPerSpeedup > 0
    ensures ShapeInvariant(RunFrom(g, cfg, frames).game, cfg)
    ensures BestShown(g) && ';' !in cfg.playerName && PlainTimes(frames) ==> BestShown(RunFrom(g, cfg, frames).game)
    decreases |frames|
  {
    if frames != [] && g.running {
      var f := frames[0];
      EventsStepKeepsInvariant(g, cfg, f.events);
      var h := EventsStep(g, f.events);
      if !h.restart {
        TickKeepsInvariant(h.game, cfg, f.pick, f.now);
        assert PlainTimes(frames) ==> PlainTimes(frames[1..]) by {
          assert forall i :: 0 <= i < |frames| - 1 ==> frames[1..][i] == frames[i + 1];
        }
        RunKeepsInvariant(TickStep(h.game, cfg, f.pick, f.now), cfg, frames[1..]);
      }
    }
  }

  /**
   * Once the game is over nothing of the play changes any more: later frames
   * cannot pause, steer, move, score or save again.
   */
  lemma {:induction false} GameOverIsFinal(g: Game, cfg: Config, frames: seq<Frame>)
    requires |g.snake.body| >= 1 && cfg.applesPerSpeedup > 0 && g.gameOver
    ensures var r := RunFrom(g, cfg, frames).game;
      r.gameOver && r.paused == g.paused && r.snake.body == g.snake.body && r.score == g.score &&
      r.apple == g.apple && r.log == g.log && r.bestScore == g.bestScore
    decreases |frames|
  {
    if frames != [] && g.running {
      var h := EventsStep(g, frames[0].events);
      EventsStepKeepsPause(g, frames[0].events);
      if !h.restart {
        GameOverIsFinal(h.game, cfg, frames[1..]);
      }
    }
  }

  /** Events never touch the pause flag or the best score once the game is over. */
  lemma {:induction false} EventsStepKeepsPause(g: Game, events: seq<GameEvent>)
    requires g.gameOver
    ensures EventsStep(g, events).game.paused == g.paused
    ensures EventsStep(g, events).game.bestScore == g.bestScore
    decreases |events|
  {
    if events != [] && !Restarts(g, events[0]) {
      EventsStepKeepsPause(EventStep(g, events[0]), events[1..]);
    }
  }

  /**
   * The result is saved exactly once: a session that was not over has, at
   * the end, one more line in the results file if it ended in game over and
   * none otherwise, and the earlier lines are untouched.
   */
  lemma {:induction false} SavedOnce(g: Game, cfg: Config, frames: seq<Frame>)
    requires |g.snake.body| >= 1 && cfg.applesPerSpeedup > 0 && !g.gameOver
    ensures var r := RunFrom(g, cfg, frames).game;
      |r.log| == |g.log| + (if r.gameOver then 1 else 0) && r.log[..|g.log|] == g.log
    decreases |frames|
  {
    if frames != [] && g.running {
      var f := frames[0];
      var h := EventsStep(g, f.events);
      if !h.restart {
        var t := TickStep(h.game, cfg, f.pick, f.now);
        if t.gameOver {
          GameOverIsFinal(t, cfg, frames[1..]);
          assert t.log[..|g.log|] == g.log;
        } else {
          SavedOnce(t, cfg, frames[1..]);
        }
      }
    }
  }

  // ---------------------------------------------------------------------------
  // run_game's local variables as an object

  /** The state of one run_game call; the snake is an object, the apple a value that is replaced. */
  class GameSession {
    const cfg: Config
    const snake: Snake
    var apple: Apple
    var score: int
    var speed: int
    var paused: bool
    var gameOver: bool
    var running: bool
    var bestScore: int
    var log: seq<string>

    ghost predicate Valid()
      reads this, snake
    {
      snake.Valid() && cfg.applesPerSpeedup > 0
    }

    /** The abstract value of the session. */
    function State(): Game
      reads this, snake
    {
      Game(snake.State(), apple, score, speed, paused, gameOver, running, bestScore, log)
    }

    /** The set-up of run_game: presets, a snake in the middle of the field, the first apple, the best score. */
    constructor (cols: int, rows: int, playerName: string, baseSpeed: int, difficulty: string,
                 results: seq<string>, pick: nat)
      ensures Valid() && fresh(snake)
      ensures cfg == ConfigFor(cols, rows, playerName, difficulty, baseSpeed)
      ensures State() == InitialGame(cfg, baseSpeed, difficulty, results, pick)
    {
      var preset := PresetFor(difficulty, baseSpeed);
      cfg := ConfigFor(cols, rows, playerName, difficulty, baseSpeed);
      speed := preset.speed;
      var s := new Snake(cols / 2, rows / 2, CellSize);
      snake := s;
      var body := s.BodyCells();
      apple := SpawnRandom(cols, rows, CellSize, body, pick);
      running := true;
      gameOver := false;
      paused := false;
      score := 0;
      var best := LoadBestScore(results);
      bestScore := best;
      log := results;
    }

    /** One input event; `restart` is the `return True` of a click on the restart button. */
    method HandleEvent(e: GameEvent) returns (restart: bool)
      requires Valid()
      modifies this, snake
      ensures Valid()
      ensures restart == Restarts(old(State()), e)
      ensures restart ==> State() == old(State())
      ensures !restart ==> State() == EventStep(old(State()), e)
    {
      match e {
        case KeyDown(k) =>
          if k == Escape {
            running := false;
          }
          if k == Plus {
            speed := SpeedUp(speed, MaxSpeed);
          }
          if k == Minus {
            speed := SpeedDown(speed, MinSpeed);
          }
          if k == Pause && !gameOver {
            paused := !paused;
          }
          if !gameOver && !paused {
            if k == Up {
              snake.ChangeDirection(0, -1);
            } else if k == Down {
              snake.ChangeDirection(0, 1);
            } else if k == Left {
              snake.ChangeDirection(-1, 0);
            } else if k == Right {
              snake.ChangeDirection(1, 0);
            }
          }
          return false;
        case LeftClick(t) =>
          if gameOver {
            if t == RestartButton {
              return true;
            } else if t == QuitButton {
              running := false;
            }
          }
          return false;
        case OtherEvent =>
          return false;
      }
    }

    /** The per-frame update block of run_game. */
    method Tick(pick: nat, now: string)
      requires Valid()
      modifies this, snake
      ensures Valid()
      ensures State() == TickStep(old(State()), cfg, pick, now)
    {
      ghost var g := State();
      if !gameOver && !paused {
        snake.Move();
        ghost var moved := snake.State();
        var head := snake.HeadCell();
        var (headX, headY) := head;
        if !(0 <= headX < cfg.cols && 0 <= headY < cfg.rows) {
          gameOver := true;
        }
        if !gameOver {
          var collided := snake.CheckSelfCollision();
          if collided {
            gameOver := true;
          }
        }
        assert gameOver == Crashes(moved, cfg);
        if !gameOver {
          head := snake.HeadCell();
          if head == CellOf(apple) {
            EatApple(pick);
          }
        }
        if gameOver {
          RecordResult(now);
        }
      }
    }

    /** A head on the apple: a point, a segment to grow, a new apple, and now and then a faster speed. */
    method EatApple(pick: nat)
      requires Valid()
      modifies this, snake
      ensures Valid()
      ensures State() == old(State()).(
        snake := AddGrowth(old(snake.State()), 1),
        score := old(score) + 1,
        apple := SpawnRandom(cfg.cols, cfg.rows, cfg.cellSize, old(snake.body), pick),
        speed := if (old(score) + 1) % cfg.applesPerSpeedup == 0 then SpeedUp(old(speed), MaxSpeed) else old(speed))
    {
      score := score + 1;
      snake.Grow(1);
      var body := snake.BodyCells();
      apple := SpawnRandom(cfg.cols, cfg.rows, cfg.cellSize, body, pick);
      if score % cfg.applesPerSpeedup == 0 {
        speed := SpeedUp(speed, MaxSpeed);
      }
    }

    /** The end of a game: save_result appends the line to the log, and the best score follows. */
    method RecordResult(now: string)
      requires Valid()
      modifies this
      ensures Valid()
      ensures State() == old(State()).(
        log := old(log) + [FormatResult(now, cfg.playerName, old(score))],
        bestScore := Max(old(score), old(bestScore)))
    {
      log := log + [FormatResult(now, cfg.playerName, score)];
      if score > bestScore {
        bestScore := score;
      }
    }

    /** run_game's loop over frames: all events of a frame, then one tick; ends on a restart or once `running` is false. */
    method Run(frames: seq<Frame>) returns (restart: bool)
      requires Valid()
      modifies this, snake
      ensures Valid()
      ensures Handled(State(), restart) == RunFrom(old(State()), cfg, frames)
    {
      var k := 0;
      while k < |frames| && running
        invariant 0 <= k <= |frames| && Valid()
        invariant RunFrom(old(State()), cfg, frames) == RunFrom(State(), cfg, frames[k..])
      {
        var f := frames[k];
        assert frames[k..][0] == f && frames[k..][1..] == frames[k + 1..];
        ghost var before := State();
        var i := 0;
        while i < |f.events|
          invariant 0 <= i <= |f.events| && Valid()
          invariant EventsStep(before, f.events) == EventsStep(State(), f.events[i..])
        {
          assert f.events[i..][1..] == f.events[i + 1..];
          restart := HandleEvent(f.events[i]);
          if restart {
            return;
          }
          i := i + 1;
        }
        this.Tick(f.pick, f.now);
        k := k + 1;
      }
      restart := false;
    }
  }
}
