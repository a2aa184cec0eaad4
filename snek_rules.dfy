/**
 * The rules of the Snek game engine, stated on values: the board constants,
 * directions and key names, one move of the body, the collision test, food
 * placement, the eating step and one whole tick. The class in snek_board.dfy
 * changes its fields step by step and is proved to follow these functions.
 */
module SnekRules {

  /** Distance the head travels per tick; every cell is a multiple of it. */
  const MoveIncrement: int := 20

  // Coordinates at which the head is stopped by a wall.
  const LeftWall: int := 0
  const RightWall: int := 600
  const TopWall: int := 20
  const BottomWall: int := 620

  /** The speed counter starts here and goes up by one every ScorePerSpeedUp points. */
  const InitialMovesPerSecond: int := 5
  const ScorePerSpeedUp: int := 5

  datatype Option<T> = None | Some(value: T)

  datatype Cell = Cell(x: int, y: int)

  datatype Direction = Up | Down | Left | Right

  /** The key symbol that names a direction. */
  function Name(d: Direction): string {
    match d
    case Up => "Up"
    case Down => "Down"
    case Left => "Left"
    case Right => "Right"
  }

  /** The direction a key symbol names, if it is one of the four direction keys. */
  function ParseKeysym(keysym: string): (r: Option<Direction>)
    ensures r.Some? <==> keysym in {Name(Up), Name(Down), Name(Left), Name(Right)}
    ensures r.Some? ==> Name(r.value) == keysym
  {
    if keysym == "Up" then Some(Up)
    else if keysym == "Down" then Some(Down)
    else if keysym == "Left" then Some(Left)
    else if keysym == "Right" then Some(Right)
    else None
  }

  /** The two directions make up one of the pairs {Up, Down} and {Left, Right}. */
  predicate Opposite(a: Direction, b: Direction) {
    {a, b} == {Up, Down} || {a, b} == {Left, Right}
  }

  /** The direction pointing the other way (a reference for Opposite). */
  function Reverse(d: Direction): Direction {
    match d
    case Up => Down
    case Down => Up
    case Left => Right
    case Right => Left
  }

  /** The direction held after a key press: the named direction, unless it is opposite to the current one. */
  function Turn(current: Direction, keysym: string): (next: Direction)
    ensures next == current || Name(next) == keysym
    ensures !Opposite(next, current)
    ensures ParseKeysym(keysym).Some? && !Opposite(ParseKeysym(keysym).value, current) ==> Name(next) == keysym
  {
    match ParseKeysym(keysym)
    case Some(d) => if Opposite(d, current) then current else d
    case None => current
  }

  /** The cell one increment away from c in direction d. */
  function Advance(c: Cell, d: Direction): Cell {
    match d
    case Left => Cell(c.x - MoveIncrement, c.y)
    case Right => Cell(c.x + MoveIncrement, c.y)
    case Down => Cell(c.x, c.y + MoveIncrement)
    case Up => Cell(c.x, c.y - MoveIncrement)
  }

  /** a and b lie one increment apart along one axis. */
  predicate Adjacent(a: Cell, b: Cell) {
    || (a.x == b.x && (a.y == b.y + MoveIncrement || a.y == b.y - MoveIncrement))
    || (a.y == b.y && (a.x == b.x + MoveIncrement || a.x == b.x - MoveIncrement))
  }

  /** The body after one move: a new head one increment ahead, every other cell taking its predecessor's place, the last cell dropped. */
  function Moved(body: seq<Cell>, d: Direction): (r: seq<Cell>)
    requires |body| > 0
    ensures |r| == |body|
    ensures r[0] == Advance(body[0], d)
    ensures forall i :: 0 <= i < |body| - 1 ==> r[i + 1] == body[i]
  {
    seq(|body|, i requires 0 <= i < |body| => if i == 0 then Advance(body[0], d) else body[i - 1])
  }

  predicate HitsWall(c: Cell) {
    c.x == LeftWall || c.x == RightWall || c.y == TopWall || c.y == BottomWall
  }

  /** The game is over when the head is on a wall or on another cell of the body. */
  function CheckCollisions(body: seq<Cell>): (hit: bool)
    requires |body| > 0
    ensures hit <==> HitsWall(body[0]) || exists i :: 1 <= i < |body| && body[i] == body[0]
  {
    var head := body[0];
    head.x in {LeftWall, RightWall} || head.y in {TopWall, BottomWall} || head in body[1..]
  }

  /** The two values returned by randint(1, 29) and randint(3, 30) in one round of food placement. */
  type Draw = p: (int, int) | 1 <= p.0 <= 29 && 3 <= p.1 <= 30 witness (1, 3)

  /** The cells food can be placed on. */
  predicate FoodGrid(c: Cell) {
    && 20 <= c.x <= 580 && 60 <= c.y <= 600
    && c.x % MoveIncrement == 0 && c.y % MoveIncrement == 0
  }

  function FoodCell(p: Draw): (c: Cell)
    ensures FoodGrid(c)
  {
    Cell(p.0 * MoveIncrement, p.1 * MoveIncrement)
  }

  /** Some draw in the supply gives a cell off the body, so rejection sampling stops. */
  predicate HasFreeDraw(body: seq<Cell>, draws: seq<Draw>) {
    exists k :: 0 <= k < |draws| && FoodCell(draws[k]) !in body
  }

  /** The round at which rejection sampling accepts: the first draw whose cell is off the body. */
  function FirstFreeDraw(body: seq<Cell>, draws: seq<Draw>): (k: nat)
    requires HasFreeDraw(body, draws)
    ensures k < |draws| && FoodCell(draws[k]) !in body
    ensures forall j :: 0 <= j < k ==> FoodCell(draws[j]) in body
    decreases |draws|
  {
    if FoodCell(draws[0]) !in body then 0
    else
      assert HasFreeDraw(body, draws[1..]) by {
        var k :| 0 <= k < |draws| && FoodCell(draws[k]) !in body;
        assert FoodCell(draws[1..][k - 1]) !in body;
      }
      1 + FirstFreeDraw(body, draws[1..])
  }

  /** The cell rejection sampling settles on. */
  function PlaceFood(body: seq<Cell>, draws: seq<Draw>): (p: Cell)
    requires HasFreeDraw(body, draws)
    ensures p !in body && FoodGrid(p)
    ensures exists k :: 0 <= k < |draws| && p == FoodCell(draws[k])
  {
    FoodCell(draws[FirstFreeDraw(body, draws)])
  }

  /** The whole game state: the body head first, the food, the direction held, the score and the speed counter. */
  datatype State = State(body: seq<Cell>, food: Cell, direction: Direction, score: nat, movesPerSecond: int)

  const InitialBody: seq<Cell> := [Cell(100, 100), Cell(80, 100), Cell(60, 100)]

  /** The state a new game starts in; the food is placed once the body exists. */
  function Initial(draws: seq<Draw>): (s: State)
    requires HasFreeDraw(InitialBody, draws)
    ensures s.body == InitialBody && s.direction == Right && s.score == 0
    ensures s.movesPerSecond == InitialMovesPerSecond
    ensures s.food !in s.body && FoodGrid(s.food)
  {
    State(InitialBody, PlaceFood(InitialBody, draws), Right, 0, InitialMovesPerSecond)
  }

  function KeyPressed(s: State, keysym: string): State {
    s.(direction := Turn(s.direction, keysym))
  }

  /** The draws are enough for a food check that eats. */
  predicate FeedReady(s: State, draws: seq<Draw>) {
    |s.body| > 0 && (s.body[0] == s.food ==> HasFreeDraw(s.body, draws))
  }

  /**
   * The food check on the un-moved head: nothing happens unless the head is
   * on the food; otherwise one point, the tail cell repeated at the end, the
   * speed counter up by one when the new score is a multiple of five, and new
   * food off the grown body.
   */
  function Fed(s: State, draws: seq<Draw>): (r: State)
    requires FeedReady(s, draws)
    ensures s.body[0] != s.food ==> r == s
    ensures s.body[0] == s.food ==>
      && r.score == s.score + 1
      && |r.body| == |s.body| + 1
      && r.body[..|s.body|] == s.body
      && r.body[|s.body|] == s.body[|s.body| - 1]
      && r.movesPerSecond == s.movesPerSecond + (if r.score % ScorePerSpeedUp == 0 then 1 else 0)
      && r.food !in r.body && FoodGrid(r.food)
    ensures r.direction == s.direction
  {
    if s.body[0] != s.food then s
    else
      var grown := s.body + [s.body[|s.body| - 1]];
      var score := s.score + 1;
      assert HasFreeDraw(grown, draws) by {
        var k :| 0 <= k < |draws| && FoodCell(draws[k]) !in s.body;
        assert FoodCell(draws[k]) !in grown;
      }
      State(grown, PlaceFood(grown, draws), s.direction, score,
            if score % ScorePerSpeedUp == 0 then s.movesPerSecond + 1 else s.movesPerSecond)
  }

  /** The draws are enough for one tick. */
  predicate TickReady(s: State, draws: seq<Draw>) {
    |s.body| > 0 && (!CheckCollisions(s.body) ==> FeedReady(s, draws))
  }

  /**
   * One tick in the order of the source: the collision test on the current
   * body first, which freezes everything; otherwise the food check, then the move.
   */
  function Tick(s: State, draws: seq<Draw>): (r: State)
    requires TickReady(s, draws)
    ensures CheckCollisions(s.body) ==> r == s
    ensures !CheckCollisions(s.body) ==>
      && |r.body| == |s.body| + (if s.body[0] == s.food then 1 else 0)
      && r.score == s.score + (if s.body[0] == s.food then 1 else 0)
      && r.body[0] == Advance(s.body[0], s.direction)
    ensures r.direction == s.direction
  {
    if CheckCollisions(s.body) then s
    else
      var fed := Fed(s, draws);
      fed.(body := Moved(fed.body, fed.direction))
  }

  /** What reaches the engine: key presses and timer ticks (with the draws the tick's food placement may use). */
  datatype Event = KeyEvent(keysym: string) | TimerEvent(draws: seq<Draw>)

  predicate EventReady(s: State, e: Event) {
    |s.body| > 0 && (e.TimerEvent? ==> TickReady(s, e.draws))
  }

  function Apply(s: State, e: Event): (r: State)
    requires EventReady(s, e)
    ensures |r.body| >= |s.body|
  {
    match e
    case KeyEvent(k) => KeyPressed(s, k)
    case TimerEvent(draws) => Tick(s, draws)
  }

  /** Every event in turn finds the state it needs. */
  predicate Feasible(s: State, events: seq<Event>)
    decreases |events|
  {
    events == [] || (EventReady(s, events[0]) && Feasible(Apply(s, events[0]), events[1..]))
  }

  /** The state after a sequence of events. */
  function Run(s: State, events: seq<Event>): State
    requires Feasible(s, events)
    decreases |events|
  {
    if events == [] then s else Run(Apply(s, events[0]), events[1..])
  }

  predicate OnGrid(c: Cell) {
    c.x % MoveIncrement == 0 && c.y % MoveIncrement == 0
  }

  predicate InBounds(c: Cell) {
    LeftWall <= c.x <= RightWall && TopWall <= c.y <= BottomWall
  }

  /**
   * What holds between ticks: one cell per point beyond the initial three,
   * every cell on the grid and within the walls, consecutive cells adjacent,
   * the food on the food grid and under no cell but possibly the head, and
   * the speed counter one up for every five points.
   */
  predicate Inv(s: State) {
    && |s.body| == |InitialBody| + s.score
    && (forall i :: 0 <= i < |s.body| ==> OnGrid(s.body[i]) && InBounds(s.body[i]))
    && (forall i :: 0 <= i < |s.body| - 1 ==> Adjacent(s.body[i], s.body[i + 1]))
    && FoodGrid(s.food)
    && (forall i :: 1 <= i < |s.body| ==> s.body[i] != s.food)
    && s.movesPerSecond == InitialMovesPerSecond + s.score / ScorePerSpeedUp
  }
}
