/** What `move_cursor` and `handle_keypress` in src/editor.rs do to the cursor,
    as functions of the screen size and the old position. The class in
    editor.dfy performs these updates in place and is proved against them. */
module Cursor {
  import opened Terminal
  import opened Keys

  datatype Position = Position(row: nat, col: nat)

  /** The cursor lies on the screen of `rows` by `cols` cells. */
  predicate InBounds(rows: nat, cols: nat, p: Position) {
    p.row < rows && p.col < cols
  }

  /** One `move_cursor` step: one cell in direction `d`, unless that would leave
      the screen. */
  function Step(rows: nat, cols: nat, p: Position, d: Direction): Position
    requires rows > 0 && cols > 0
  {
    match d
    case Left => if p.col > 0 then p.(col := p.col - 1) else p
    case Right => if p.col < cols - 1 then p.(col := p.col + 1) else p
    case Up => if p.row > 0 then p.(row := p.row - 1) else p
    case Down => if p.row < rows - 1 then p.(row := p.row + 1) else p
  }

  /** `n` steps in the same direction. */
  function Steps(rows: nat, cols: nat, p: Position, d: Direction, n: nat): Position
    requires rows > 0 && cols > 0
  {
    if n == 0 then p else Step(rows, cols, Steps(rows, cols, p, d, n - 1), d)
  }

  /** The position after `handle_keypress` has handled key `k`. */
  function Transition(rows: nat, cols: nat, p: Position, k: Key): Position
    requires rows > 0 && cols > 0
  {
    match k
    case Arrow(d) => Step(rows, cols, p, d)
    case PageUp => Steps(rows, cols, p, Up, rows)
    case PageDown => Steps(rows, cols, p, Down, rows)
    case Home => p.(col := 0)
    case End => p.(col := cols - 1)
    case Delete => p
    case Simple(_) => p
  }

  /** Only the quit byte asks the editor to exit. */
  predicate RequestsExit(k: Key) {
    k == Simple(QuitByte)
  }

  function Max(a: int, b: int): int {
    if a >= b then a else b
  }

  /** On the screen, a step is a clamped move: the coordinate in the direction of
      the step moves by one and is held within the screen, the other is unchanged. */
  lemma StepClamps(rows: nat, cols: nat, p: Position, d: Direction)
    requires rows > 0 && cols > 0 && InBounds(rows, cols, p)
    ensures InBounds(rows, cols, Step(rows, cols, p, d))
    ensures d == Left ==> Step(rows, cols, p, d) == Position(p.row, Max(p.col - 1, 0))
    ensures d == Right ==> Step(rows, cols, p, d) == Position(p.row, Min(p.col + 1, cols - 1))
    ensures d == Up ==> Step(rows, cols, p, d) == Position(Max(p.row - 1, 0), p.col)
    ensures d == Down ==> Step(rows, cols, p, d) == Position(Min(p.row + 1, rows - 1), p.col)
  {
  }

  /** A step changes at most one coordinate, and that one by exactly one; it
      changes nothing exactly when the cursor is at the edge it moves towards. */
  lemma StepDistance(rows: nat, cols: nat, p: Position, d: Direction)
    requires rows > 0 && cols > 0 && InBounds(rows, cols, p)
    ensures var q := Step(rows, cols, p, d);
      q == p ||
      (q.row == p.row && (q.col == p.col + 1 || q.col + 1 == p.col)) ||
      (q.col == p.col && (q.row == p.row + 1 || q.row + 1 == p.row))
    ensures Step(rows, cols, p, d) == p <==>
      match d
      case Left => p.col == 0
      case Right => p.col == cols - 1
      case Up => p.row == 0
      case Down => p.row == rows - 1
  {
  }

  /** `n` steps in one direction move the cursor `n` cells, stopping at the edge of
      the screen; the other coordinate stays. Repeated moves at an edge therefore
      leave the cursor where it is. */
  lemma {:induction false} StepsClamp(rows: nat, cols: nat, p: Position, d: Direction, n: nat)
    requires rows > 0 && cols > 0 && InBounds(rows, cols, p)
    ensures InBounds(rows, cols, Steps(rows, cols, p, d, n))
    ensures d == Left ==> Steps(rows, cols, p, d, n) == Position(p.row, Max(p.col - n, 0))
    ensures d == Right ==> Steps(rows, cols, p, d, n) == Position(p.row, Min(p.col + n, cols - 1))
    ensures d == Up ==> Steps(rows, cols, p, d, n) == Position(Max(p.row - n, 0), p.col)
    ensures d == Down ==> Steps(rows, cols, p, d, n) == Position(Min(p.row + n, rows - 1), p.col)
  {
    if n > 0 {
      StepsClamp(rows, cols, p, d, n - 1);
      StepClamps(rows, cols, Steps(rows, cols, p, d, n - 1), d);
    }
  }

  /** Every key leaves a cursor that is on the screen on the screen. */
  lemma TransitionInBounds(rows: nat, cols: nat, p: Position, k: Key)
    requires rows > 0 && cols > 0 && InBounds(rows, cols, p)
    ensures InBounds(rows, cols, Transition(rows, cols, p, k))
  {
    match k
    case Arrow(d) => StepClamps(rows, cols, p, d);
    case PageUp => StepsClamp(rows, cols, p, Up, rows);
    case PageDown => StepsClamp(rows, cols, p, Down, rows);
    case _ =>
  }

  /** What each key does to the cursor: Home and End go to the first and last
      column of the row, PageUp and PageDown go a screen height up or down but stop
      at the first and last row, and Delete and plain bytes change nothing. As the
      cursor starts on the screen, a screen height always reaches that row: PageUp
      goes to row 0 and PageDown to row rows - 1. */
  lemma TransitionKeys(rows: nat, cols: nat, p: Position, k: Key)
    requires rows > 0 && cols > 0 && InBounds(rows, cols, p)
    ensures k == Home ==> Transition(rows, cols, p, k) == Position(p.row, 0)
    ensures k == End ==> Transition(rows, cols, p, k) == Position(p.row, cols - 1)
    ensures k == PageUp ==> Transition(rows, cols, p, k) == Position(Max(p.row - rows, 0), p.col)
    ensures k == PageDown ==> Transition(rows, cols, p, k) == Position(Min(p.row + rows, rows - 1), p.col)
    ensures k == Delete || k.Simple? ==> Transition(rows, cols, p, k) == p
    ensures k == PageUp ==> Transition(rows, cols, p, k) == Position(0, p.col)
    ensures k == PageDown ==> Transition(rows, cols, p, k) == Position(rows - 1, p.col)
  {
    if k == PageUp {
      StepsClamp(rows, cols, p, Up, rows);
    } else if k == PageDown {
      StepsClamp(rows, cols, p, Down, rows);
    }
  }
}
