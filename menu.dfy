/**
 * The main menu of main.py (run_menu): the player's name, the initial speed
 * and the difficulty are edited by key presses and clicks until the start
 * button is clicked. Drawing, the clock and the mapping of mouse positions to
 * buttons are left out: a click arrives already resolved to the button it hit.
 */
module Menu {
  import opened Speed

  const MinMenuSpeed := 3
  const MaxMenuSpeed := 25
  const MaxNameLength := 12
  const DefaultName := "Player"
  const Difficulties: seq<string> := ["easy", "normal", "hard"]

  /** A key press: Return, Backspace, Escape, or any other key with the text it types. */
  datatype Key = Return | Backspace | Escape | Typed(text: string)

  /** What a left click hit. */
  datatype Target = NameField | SpeedMinus | SpeedPlus | DifficultyButton | StartButton | Elsewhere

  /** One input event of the menu loop. */
  datatype MenuEvent = Quit | KeyDown(key: Key) | LeftClick(target: Target) | OtherEvent

  /** The local state of run_menu. */
  datatype MenuState = MenuState(speed: int, diffIndex: int, name: string, activeName: bool)

  /** What run_menu returns: the name, the initial speed and the difficulty. */
  datatype MenuChoice = MenuChoice(name: string, speed: int, difficulty: string)

  /** How a run of events ends: the game starts, the program exits, or the menu is still waiting. */
  datatype MenuOutcome = Started(choice: MenuChoice) | Exited | Waiting(state: MenuState)

  function InitialMenu(): MenuState {
    MenuState(10, 1, "", false)
  }

  /** A control character; str.isprintable() is modelled as "no control character". */
  predicate IsControl(ch: char) {
    ch as int < 32 || (127 <= ch as int < 160)
  }

  predicate Printable(text: string) {
    forall i :: 0 <= i < |text| ==> !IsControl(text[i])
  }

  /** The key presses the event source produces type at most one character. */
  predicate SingleChar(e: MenuEvent) {
    e.KeyDown? && e.key.Typed? ==> |e.key.text| <= 1
  }

  /** player_name[:-1]: the name without its last character (the empty name stays empty). */
  function DropLast(name: string): (r: string)
    ensures name != [] ==> r + [name[|name| - 1]] == name
    ensures name == [] ==> r == []
  {
    if name == [] then [] else name[..|name| - 1]
  }

  /** A key press while the name field is active (Escape is handled before this). */
  function EditName(m: MenuState, key: Key): MenuState
    requires m.activeName
  {
    match key
    case Return => m.(activeName := false)
    case Backspace => m.(name := DropLast(m.name))
    case Typed(text) =>
      if |m.name| < MaxNameLength && Printable(text) then m.(name := m.name + text) else m
    case Escape => m
  }

  /** A left click on anything but the start button. */
  function Click(m: MenuState, t: Target): MenuState
    requires t != StartButton
  {
    var m := m.(activeName := t == NameField);
    match t
    case SpeedMinus => m.(speed := SpeedDown(m.speed, MinMenuSpeed))
    case SpeedPlus => m.(speed := SpeedUp(m.speed, MaxMenuSpeed))
    case DifficultyButton => m.(diffIndex := (m.diffIndex + 1) % |Difficulties|)
    case _ => m
  }

  /** The choice returned on a click of the start button; an empty name becomes "Player". */
  function StartChoice(m: MenuState): (c: MenuChoice)
    requires 0 <= m.diffIndex < |Difficulties|
    ensures c.name != [] && (m.name != [] ==> c.name == m.name)
    ensures m.name == [] ==> c.name == DefaultName
    ensures c.speed == m.speed
    ensures c.difficulty == Difficulties[m.diffIndex] && c.difficulty in Difficulties
  {
    MenuChoice(if m.name == [] then DefaultName else m.name, m.speed, Difficulties[m.diffIndex])
  }

  /** The bounds run_menu keeps: speed in [3, 25], a valid difficulty index, a name of at most 12 characters. */
  predicate MenuInvariant(m: MenuState) {
    MinMenuSpeed <= m.speed <= MaxMenuSpeed && 0 <= m.diffIndex < |Difficulties| && |m.name| <= MaxNameLength
  }

  /** The outcome of run_menu fed `events` from state `m`. */
  function RunMenuFrom(m: MenuState, events: seq<MenuEvent>): MenuOutcome
    requires 0 <= m.diffIndex < |Difficulties|
    decreases |events|
  {
    if events == [] then Waiting(m)
    else
      match events[0]
      case Quit => Exited
      case KeyDown(key) =>
        if key == Escape then Exited
        else if m.activeName then RunMenuFrom(EditName(m, key), events[1..])
        else RunMenuFrom(m, events[1..])
      case LeftClick(t) =>
        if t == StartButton then Started(StartChoice(m))
        else RunMenuFrom(Click(m, t), events[1..])
      case OtherEvent => RunMenuFrom(m, events[1..])
  }

  /** One event keeps the menu's bounds, provided a typed key carries at most one character. */
  lemma EventKeepsInvariant(m: MenuState, e: MenuEvent)
    requires MenuInvariant(m) && SingleChar(e)
    ensures e.KeyDown? && e.key != Escape && m.activeName ==> MenuInvariant(EditName(m, e.key))
    ensures e.LeftClick? && e.target != StartButton ==> MenuInvariant(Click(m, e.target))
  {
    AdjustStaysInRange(m.speed, MinMenuSpeed, MaxMenuSpeed);
  }

  /**
   * Whatever the events, a started game gets a non-empty name of at most 12
   * characters, a speed in [3, 25] and one of the three difficulties.
   */
  lemma {:induction false} StartedChoiceIsValid(m: MenuState, events: seq<MenuEvent>)
    requires MenuInvariant(m)
    requires forall i :: 0 <= i < |events| ==> SingleChar(events[i])
    ensures RunMenuFrom(m, events).Started? ==>
      var c := RunMenuFrom(m, events).choice;
      c.name != [] && |c.name| <= MaxNameLength && MinMenuSpeed <= c.speed <= MaxMenuSpeed &&
      c.difficulty in Difficulties
    ensures RunMenuFrom(m, events).Waiting? ==> MenuInvariant(RunMenuFrom(m, events).state)
    decreases |events|
  {
    if events != [] {
      EventKeepsInvariant(m, events[0]);
      assert forall i :: 0 <= i < |events| - 1 ==> events[1..][i] == events[i + 1];
      match events[0]
      case Quit =>
      case KeyDown(key) =>
        if key != Escape {
          if m.activeName {
            StartedChoiceIsValid(EditName(m, key), events[1..]);
          } else {
            StartedChoiceIsValid(m, events[1..]);
          }
        }
      case LeftClick(t) =>
        if t != StartButton {
          StartedChoiceIsValid(Click(m, t), events[1..]);
        }
      case OtherEvent =>
        StartedChoiceIsValid(m, events[1..]);
    }
  }

  /** Typing one printable character into a short name and then Backspace gives the name back. */
  lemma TypeThenBackspace(m: MenuState, ch: char)
    requires m.activeName && |m.name| < MaxNameLength && !IsControl(ch)
    ensures EditName(EditName(m, Typed([ch])), Backspace).name == m.name
  {
    assert (m.name + [ch])[..|m.name|] == m.name;
  }

  /** Three clicks on the difficulty button bring the difficulty back to where it was. */
  lemma DifficultyCycles(m: MenuState)
    requires 0 <= m.diffIndex < |Difficulties|
    ensures Click(Click(Click(m, DifficultyButton), DifficultyButton), DifficultyButton).diffIndex == m.diffIndex
  {
  }

  /** run_menu: the event loop over the source's local variables. */
  method RunMenu(events: seq<MenuEvent>) returns (outcome: MenuOutcome)
    ensures outcome == RunMenuFrom(InitialMenu(), events)
    ensures outcome.Started? ==> outcome.choice.name != [] && outcome.choice.difficulty in Difficulties
  {
    var selectedSpeed := 10;
    var diffIndex := 1;
    var playerName := "";
    var activeName := false;
    var i := 0;
    while i < |events|
      invariant 0 <= i <= |events|
      invariant 0 <= diffIndex < |Difficulties|
      invariant RunMenuFrom(InitialMenu(), events) ==
        RunMenuFrom(MenuState(selectedSpeed, diffIndex, playerName, activeName), events[i..])
    {
      assert events[i..][1..] == events[i + 1..];
      match events[i] {
        case Quit =>
          return Exited;
        case KeyDown(key) =>
          if key == Escape {
            return Exited;
          }
          if activeName {
            match key {
              case Return =>
                activeName := false;
              case Backspace =>
                playerName := DropLast(playerName);
              case Typed(text) =>
                if |playerName| < MaxNameLength && Printable(text) {
                  playerName := playerName + text;
                }
            }
          }
        case LeftClick(target) =>
          activeName := target == NameField;
          if target == SpeedMinus {
            selectedSpeed := SpeedDown(selectedSpeed, MinMenuSpeed);
          } else if target == SpeedPlus {
            selectedSpeed := SpeedUp(selectedSpeed, MaxMenuSpeed);
          } else if target == DifficultyButton {
            diffIndex := (diffIndex + 1) % |Difficulties|;
          } else if target == StartButton {
            if playerName == [] {
              playerName := DefaultName;
            }
            return Started(MenuChoice(playerName, selectedSpeed, Difficulties[diffIndex]));
          }
        case OtherEvent =>
      }
      i := i + 1;
    }
    outcome := Waiting(MenuState(selectedSpeed, diffIndex, playerName, activeName));
  }
}
