/**
 * The Snek game object: the fields the game updates in place and the methods
 * that update them, each proved to do what the functions of SnekRules say.
 * Drawing on the canvas, asset loading and timer scheduling are not part of
 * this model; randint's values arrive as a sequence of draws.
 */
module SnekBoard {
  import opened SnekRules
  import SnekProofs

  class Snek {
    var snekPositions: seq<Cell>
    var foodPosition: Cell
    var direction: Direction
    var score: nat
    /** A global counter in the source, kept here with the rest of the state. */
    var movesPerSecond: int

    /** The fields as one value of the rules' state type. */
    ghost function Model(): State
      reads this
    {
      State(snekPositions, foodPosition, direction, score, movesPerSecond)
    }

    /** A new game: three cells heading right, no points, food off the body. */
    constructor (draws: seq<Draw>)
      requires HasFreeDraw(InitialBody, draws)
      ensures Model() == Initial(draws)
      ensures Inv(Model())
    {
      snekPositions := InitialBody;
      movesPerSecond := InitialMovesPerSecond;
      new;
      foodPosition := SetNewFoodPosition(draws);
      score := 0;
      direction := Right;
      SnekProofs.InitialInv(draws);
    }

    /** Take the key's direction when it names one and is not opposite to the current direction. */
    method OnKeyPress(keysym: string)
      modifies this`direction
      ensures Model() == KeyPressed(old(Model()), keysym)
      ensures !Opposite(direction, old(direction))
    {
      var newDirection := ParseKeysym(keysym);
      if newDirection.Some? && !Opposite(newDirection.value, direction) {
        direction := newDirection.value;
      }
    }

    /** Put a new head one increment ahead and drop the last cell. */
    method MoveSnek()
      requires |snekPositions| > 0
      modifies this`snekPositions
      ensures Model() == old(Model()).(body := Moved(old(snekPositions), direction))
    {
      var newHead := Advance(snekPositions[0], direction);
      snekPositions := [newHead] + snekPositions[..|snekPositions| - 1];
    }

    /** Eat the food if the head is on it: score, grow by a copy of the tail, maybe speed up, and place new food. */
    method CheckFoodCollision(draws: seq<Draw>)
      requires FeedReady(Model(), draws)
      modifies this
      ensures Model() == Fed(old(Model()), draws)
    {
      if snekPositions[0] == foodPosition {
        score := score + 1;
        snekPositions := snekPositions + [snekPositions[|snekPositions| - 1]];
        if score % ScorePerSpeedUp == 0 {
          movesPerSecond := movesPerSecond + 1;
        }
        assert HasFreeDraw(snekPositions, draws) by {
          var k :| 0 <= k < |draws| && FoodCell(draws[k]) !in old(snekPositions);
          assert FoodCell(draws[k]) !in snekPositions;
        }
        foodPosition := SetNewFoodPosition(draws);
      }
    }

    /** Rejection sampling: try the draws in order until one gives a cell off the body. */
    method SetNewFoodPosition(draws: seq<Draw>) returns (p: Cell)
      requires HasFreeDraw(snekPositions, draws)
      ensures p == PlaceFood(snekPositions, draws)
      ensures p !in snekPositions && FoodGrid(p)
    {
      var i := 0;
      while FoodCell(draws[i]) in snekPositions
        invariant i <= FirstFreeDraw(snekPositions, draws)
        decreases FirstFreeDraw(snekPositions, draws) - i
      {
        i := i + 1;
      }
      p := FoodCell(draws[i]);
    }

    /**
     * One tick: the collision test ends the game (running is false and the
     * timer is not set again); otherwise the food check, then the move.
     */
    method PerformActions(draws: seq<Draw>) returns (running: bool)
      requires TickReady(Model(), draws)
      modifies this
      ensures running == !CheckCollisions(old(snekPositions))
      ensures Model() == Tick(old(Model()), draws)
      ensures old(Inv(Model())) ==> Inv(Model())
    {
      ghost var before := Model();
      if CheckCollisions(snekPositions) {
        return false;
      }
      CheckFoodCollision(draws);
      MoveSnek();
      running := true;
      if Inv(before) {
        SnekProofs.TickPreservesInv(before, draws);
      }
    }
  }
}
