/** Cells, directions and the collision test of the Vax-man board.
    The board is a 15 x 15 torus: every move wraps modulo 15 in both axes. */
module Geometry {

  /** Side of the square board (the `% 15` of the source). */
  const Size: int := 15

  /** Side of one square in pixels (SQUARE_LENGTH). */
  const SquareLength: int := 40

  /** A grid coordinate: column x, row y (row 0 at the top). */
  datatype Cell = Cell(x: int, y: int)

  /** The four unit moves; y grows downwards, as on screen. */
  datatype Dir = Right | Left | Down | Up

  /** A moving entity: the player or one ghost. */
  datatype Actor = Actor(pos: Cell, dir: Dir)

  function Dx(d: Dir): int {
    match d
    case Right => 1
    case Left => -1
    case _ => 0
  }

  function Dy(d: Dir): int {
    match d
    case Down => 1
    case Up => -1
    case _ => 0
  }

  /** DIRECTIONS, in the order the source lists them: (1,0), (-1,0), (0,1), (0,-1). */
  const Directions: seq<Dir> := [Right, Left, Down, Up]

  /** DIRECTIONS lists every direction. */
  lemma DirectionsComplete(d: Dir)
    ensures d in Directions
  {
    match d
    case Right => assert Directions[0] == d;
    case Left => assert Directions[1] == d;
    case Down => assert Directions[2] == d;
    case Up => assert Directions[3] == d;
  }

  /** The reverse of a direction; the source negates both components. */
  function Opposite(d: Dir): (r: Dir)
    ensures Dx(r) == -Dx(d) && Dy(r) == -Dy(d)
    ensures r != d
  {
    match d
    case Right => Left
    case Left => Right
    case Down => Up
    case Up => Down
  }

  predicate OnBoard(c: Cell) {
    0 <= c.x < Size && 0 <= c.y < Size
  }

  /** The cell one move along d from p, wrapped with a non-negative remainder
      (Python's % and Dafny's % agree for the positive modulus 15). */
  function Step(p: Cell, d: Dir): (q: Cell)
    ensures OnBoard(q)
  {
    Cell((p.x + Dx(d)) % Size, (p.y + Dy(d)) % Size)
  }

  /** Wrapping coordinate by coordinate: from a cell on the board, a move off
      one edge lands on the opposite edge, and any other move is the plain sum. */
  lemma StepWraps(p: Cell, d: Dir)
    requires OnBoard(p)
    ensures Step(p, d).x == (if p.x + Dx(d) == Size then 0 else if p.x + Dx(d) == -1 then Size - 1 else p.x + Dx(d))
    ensures Step(p, d).y == (if p.y + Dy(d) == Size then 0 else if p.y + Dy(d) == -1 then Size - 1 else p.y + Dy(d))
  {
  }

  /** Moving back along the opposite direction undoes a move on the board. */
  lemma {:induction false} StepThenBack(p: Cell, d: Dir)
    requires OnBoard(p)
    ensures Step(Step(p, d), Opposite(d)) == p
  {
    StepWraps(p, d);
    StepWraps(Step(p, d), Opposite(d));
  }

  /** An axis-aligned rectangle as pygame.Rect holds it. */
  datatype Rect = Rect(left: int, top: int, width: int, height: int)

  /** The square a cell covers on screen (the rect of a Wall, or next_rect). */
  function CellRect(c: Cell): Rect {
    Rect(c.x * SquareLength, c.y * SquareLength, SquareLength, SquareLength)
  }

  /** pygame's colliderect for rectangles of positive size: the interiors overlap. */
  predicate Colliderect(a: Rect, b: Rect) {
    && a.left < b.left + b.width
    && b.left < a.left + a.width
    && a.top < b.top + b.height
    && b.top < a.top + a.height
  }

  /** any(rect.colliderect(wall.rect) for wall in walls), walking the wall list in order. */
  predicate AnyCollides(r: Rect, walls: seq<Cell>) {
    |walls| > 0 && (Colliderect(r, CellRect(walls[0])) || AnyCollides(r, walls[1..]))
  }

  /** will_collide: the square reached by one wrapped move along d overlaps some wall's square. */
  predicate WillCollide(walls: seq<Cell>, p: Cell, d: Dir) {
    AnyCollides(CellRect(Step(p, d)), walls)
  }

  lemma ScaledOverlap(u: int, v: int)
    ensures u * SquareLength < v * SquareLength + SquareLength <==> u <= v
  {
    if u <= v {
      assert u * SquareLength <= v * SquareLength;
    } else {
      assert u * SquareLength >= (v + 1) * SquareLength;
    }
  }

  /** Two grid-aligned squares collide exactly when they are the same cell. */
  lemma SquaresCollideIffSameCell(a: Cell, b: Cell)
    ensures Colliderect(CellRect(a), CellRect(b)) <==> a == b
  {
    ScaledOverlap(a.x, b.x);
    ScaledOverlap(b.x, a.x);
    ScaledOverlap(a.y, b.y);
    ScaledOverlap(b.y, a.y);
  }

  /** Scanning the wall list finds a collision exactly when the cell itself is a wall. */
  lemma {:induction false} AnyCollidesIffMember(c: Cell, walls: seq<Cell>)
    ensures AnyCollides(CellRect(c), walls) <==> c in walls
  {
    if |walls| > 0 {
      SquaresCollideIffSameCell(c, walls[0]);
      AnyCollidesIffMember(c, walls[1..]);
      assert walls == [walls[0]] + walls[1..];
    }
  }

  /** will_collide(p, d) holds exactly when the wrapped destination is a wall cell;
      nothing else in the state matters. */
  lemma WillCollideIffWall(walls: seq<Cell>, p: Cell, d: Dir)
    ensures WillCollide(walls, p, d) <==> Step(p, d) in walls
  {
    AnyCollidesIffMember(Step(p, d), walls);
  }

  /** A wall parsed off the board (column 15 or beyond) never blocks a move. */
  lemma OffBoardWallNeverHit(w: Cell, p: Cell, d: Dir)
    requires !OnBoard(w)
    ensures !Colliderect(CellRect(Step(p, d)), CellRect(w))
  {
    SquaresCollideIffSameCell(Step(p, d), w);
  }
}
