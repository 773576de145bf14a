/**
 * The snake of game/snake.py: a head-first list of cells, a heading and a
 * counter of growth still to be applied. The pure part (SnakeState and the
 * functions on it) is the specification; the class Snake mutates its fields in
 * place as the Python object does and is proved against it.
 */
module SnakeModel {
  import opened Grid

  /** The abstract value of a snake: body (head first), heading, pending growth. */
  datatype SnakeState = SnakeState(body: seq<Cell>, direction: Cell, growPending: int)

  /** What every snake the game builds satisfies: a head, and a heading that moves it. */
  predicate WellFormed(s: SnakeState) {
    |s.body| >= 1 && s.direction != (0, 0)
  }

  /** A new snake: one cell at the start position, heading right, nothing pending. */
  function Initial(startX: int, startY: int): (s: SnakeState)
    ensures WellFormed(s) && |s.body| == 1 && s.body[0] == (startX, startY)
    ensures s.direction == (1, 0) && s.growPending == 0
  {
    SnakeState([(startX, startY)], (1, 0), 0)
  }

  /** The heading after a steering request `d`: an exact reversal and the zero vector are refused. */
  function Steer(direction: Cell, d: Cell): (r: Cell)
    ensures d == Neg(direction) || d == (0, 0) ==> r == direction
    ensures d != Neg(direction) && d != (0, 0) ==> r == d
    ensures direction != (0, 0) ==> r != (0, 0) && r != Neg(direction)
  {
    if d == Neg(direction) then direction
    else if d == (0, 0) then direction
    else d
  }

  /** One step: a new head in front; the tail is kept while growth is pending, dropped otherwise. */
  function Advance(s: SnakeState): (r: SnakeState)
    requires |s.body| >= 1
    ensures |r.body| >= 1 && r.body[0] == Add(s.body[0], s.direction)
    ensures r.direction == s.direction
    ensures s.growPending > 0 ==>
      r.body[1..] == s.body && |r.body| == |s.body| + 1 && r.growPending == s.growPending - 1
    ensures s.growPending <= 0 ==>
      r.body[1..] == s.body[..|s.body| - 1] && |r.body| == |s.body| && r.growPending == s.growPending
  {
    var extended := [Add(s.body[0], s.direction)] + s.body;
    if s.growPending > 0 then
      s.(body := extended, growPending := s.growPending - 1)
    else
      s.(body := extended[..|extended| - 1])
  }

  /** Queue `amount` more cells of growth; the body and the heading are untouched. */
  function AddGrowth(s: SnakeState, amount: int): SnakeState {
    s.(growPending := s.growPending + amount)
  }

  /** The head occupies a second cell of the body. */
  function Collides(body: seq<Cell>): (r: bool)
    requires |body| >= 1
    ensures r <==> exists i :: 1 <= i < |body| && body[i] == body[0]
    ensures |body| == 1 ==> !r
  {
    body[0] in body[1..]
  }

  /** `n` steps in a row, with no steering in between. */
  function AdvanceN(s: SnakeState, n: nat): (r: SnakeState)
    requires |s.body| >= 1
    ensures |r.body| >= 1 && r.direction == s.direction
    decreases n
  {
    if n == 0 then s else AdvanceN(Advance(s), n - 1)
  }

  /** Steps taken while at least as much growth is pending each add one cell and use up one unit. */
  lemma {:induction false} AdvanceWhileGrowing(s: SnakeState, n: nat)
    requires |s.body| >= 1 && s.growPending >= n
    ensures |AdvanceN(s, n).body| == |s.body| + n
    ensures AdvanceN(s, n).growPending == s.growPending - n
    decreases n
  {
    if n > 0 {
      AdvanceWhileGrowing(Advance(s), n - 1);
    }
  }

  /** Without pending growth every step keeps the length, however many steps are taken. */
  lemma {:induction false} AdvanceKeepsLength(s: SnakeState, n: nat)
    requires |s.body| >= 1 && s.growPending <= 0
    ensures |AdvanceN(s, n).body| == |s.body|
    ensures AdvanceN(s, n).growPending == s.growPending
    decreases n
  {
    if n > 0 {
      AdvanceKeepsLength(Advance(s), n - 1);
    }
  }

  /** grow(n) followed by n moves adds exactly n cells and leaves the pending count where it was. */
  lemma GrowThenAdvance(s: SnakeState, n: nat)
    requires |s.body| >= 1 && s.growPending >= 0
    ensures |AdvanceN(AddGrowth(s, n), n).body| == |s.body| + n
    ensures AdvanceN(AddGrowth(s, n), n).growPending == s.growPending
  {
    AdvanceWhileGrowing(AddGrowth(s, n), n);
  }

  /** Steering keeps a snake well formed: the heading can never become the zero vector. */
  lemma SteerKeepsWellFormed(s: SnakeState, d: Cell)
    requires WellFormed(s)
    ensures WellFormed(s.(direction := Steer(s.direction, d)))
  {
  }

  /** A snake of length 1 at (5, 5) heading right is at (8, 5), still of length 1, after three moves. */
  lemma ThreeMovesScenario()
    ensures AdvanceN(Initial(5, 5), 3).body == [(8, 5)]
  {
    var s0 := Initial(5, 5);
    var s1 := Advance(s0);
    var s2 := Advance(s1);
    assert s1.body == [(6, 5)];
    assert s2.body == [(7, 5)];
    assert AdvanceN(s0, 3) == AdvanceN(s1, 2) == AdvanceN(s2, 1);
  }

  /** grow(3) then three moves from (5, 5) heading right gives the body [(8,5), (7,5), (6,5), (5,5)]. */
  lemma GrowScenario()
    ensures AdvanceN(AddGrowth(Initial(5, 5), 3), 3).body == [(8, 5), (7, 5), (6, 5), (5, 5)]
  {
    var s0 := AddGrowth(Initial(5, 5), 3);
    var s1 := Advance(s0);
    var s2 := Advance(s1);
    assert s1.body == [(6, 5), (5, 5)];
    assert s2.body == [(7, 5), (6, 5), (5, 5)];
    assert AdvanceN(s0, 3) == AdvanceN(s1, 2) == AdvanceN(s2, 1);
  }

  /**
   * Body [(5,5), (5,6), (6,6), (6,5)] heading right, steered down and moved once:
   * the head lands on (5,6), which is still part of the body.
   */
  lemma SelfCollisionScenario()
    ensures var s := SnakeState([(5, 5), (5, 6), (6, 6), (6, 5)], (1, 0), 0);
            Collides(Advance(s.(direction := Steer(s.direction, (0, 1)))).body)
  {
    var s := SnakeState([(5, 5), (5, 6), (6, 6), (6, 5)], (0, 1), 0);
    assert Advance(s).body == [(5, 6), (5, 5), (5, 6), (6, 6)];
    assert Advance(s).body[2] == Advance(s).body[0];
  }

  /** The snake object: fields updated in place, as list.insert(0, ...) and pop() do in the source. */
  class Snake {
    const cellSize: int
    var body: seq<Cell>
    var direction: Cell
    var growPending: int

    /** The object invariant: a non-empty body and a non-zero heading. */
    ghost predicate Valid()
      reads this
    {
      WellFormed(State())
    }

    /** The abstract value of this object. */
    function State(): SnakeState
      reads this
    {
      SnakeState(body, direction, growPending)
    }

    constructor (startX: int, startY: int, cellSize: int)
      ensures Valid() && State() == Initial(startX, startY)
      ensures this.cellSize == cellSize
    {
      this.cellSize := cellSize;
      body := [(startX, startY)];
      direction := (1, 0);
      growPending := 0;
    }

    method ChangeDirection(dx: int, dy: int)
      requires Valid()
      modifies this
      ensures Valid()
      ensures State() == old(State()).(direction := Steer(old(direction), (dx, dy)))
    {
      var (curDx, curDy) := direction;
      if (dx, dy) == (-curDx, -curDy) {
        return;
      }
      if dx == 0 && dy == 0 {
        return;
      }
      direction := (dx, dy);
    }

    method Move()
      requires Valid()
      modifies this
      ensures Valid()
      ensures State() == Advance(old(State()))
    {
      var (headX, headY) := body[0];
      var (dx, dy) := direction;
      var newHead := (headX + dx, headY + dy);
      body := [newHead] + body;
      if growPending > 0 {
        growPending := growPending - 1;
      } else {
        body := body[..|body| - 1];
      }
    }

    method Grow(amount: int)
      requires Valid()
      modifies this
      ensures Valid()
      ensures State() == AddGrowth(old(State()), amount)
      ensures body == old(body) && direction == old(direction) && growPending == old(growPending) + amount
    {
      growPending := growPending + amount;
    }

    method HeadCell() returns (head: Cell)
      requires Valid()
      ensures head == body[0] && head in body
    {
      head := body[0];
    }

    /** A snapshot of the body; a sequence is a value, so later moves cannot change it. */
    method BodyCells() returns (cells: seq<Cell>)
      requires Valid()
      ensures cells == body && |cells| >= 1
    {
      cells := body;
    }

    method CheckSelfCollision() returns (collided: bool)
      requires Valid()
      ensures collided <==> exists i :: 1 <= i < |body| && body[i] == body[0]
    {
      var head := body[0];
      collided := head in body[1..];
    }
  }
}
