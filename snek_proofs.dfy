/**
 * Properties of the Snek rules: direction handling, movement, food placement,
 * the invariant kept between ticks, freezing after a collision, and concrete
 * games from the starting position.
 */
module SnekProofs {
  import opened SnekRules

  /** Opposite, written as the source's pairs of names, is exactly "the reverse direction". */
  lemma OppositeIsReverse(a: Direction, b: Direction)
    ensures Opposite(a, b) <==> b == Reverse(a)
  {
    if b == Reverse(a) {
      match a
      case Up => assert {a, b} == {Up, Down};
      case Down => assert {a, b} == {Up, Down};
      case Left => assert {a, b} == {Left, Right};
      case Right => assert {a, b} == {Left, Right};
    } else {
      // The member of its pair that reversing a would give is missing.
      match a
      case Up => assert Down !in {a, b};
      case Down => assert Up !in {a, b};
      case Left => assert Right !in {a, b};
      case Right => assert Left !in {a, b};
    }
  }

  /** Names and key symbols: every direction's name reads back as that direction. */
  lemma NameParses(d: Direction)
    ensures ParseKeysym(Name(d)) == Some(d)
  {
  }

  /** A key press naming the reverse of the direction just taken is ignored. */
  lemma ReverseKeyIgnored(current: Direction, keysym: string)
    ensures var d := Turn(current, keysym); Turn(d, Name(Reverse(d))) == d
  {
    var d := Turn(current, keysym);
    NameParses(Reverse(d));
    OppositeIsReverse(Reverse(d), d);
    OppositeIsReverse(d, Reverse(d));
  }

  /** A key press naming a direction that is not the reverse of the current one is taken. */
  lemma OtherKeyTaken(current: Direction, d: Direction)
    requires d != Reverse(current)
    ensures Turn(current, Name(d)) == d
  {
    NameParses(d);
    OppositeIsReverse(current, d);
    assert Opposite(d, current) <==> Opposite(current, d) by {
      assert {d, current} == {current, d};
    }
  }

  /** Moving back the other way undoes an advance, and an advance lands next to where it started. */
  lemma AdvanceReversible(c: Cell, d: Direction)
    ensures Advance(Advance(c, d), Reverse(d)) == c
    ensures Adjacent(Advance(c, d), c)
  {
  }

  /** Food cells are exactly the cells some pair of randint draws produces. */
  lemma FoodGridIsDrawn(c: Cell)
    ensures FoodGrid(c) <==> exists p: Draw :: FoodCell(p) == c
  {
    if FoodGrid(c) {
      var p: Draw := (c.x / MoveIncrement, c.y / MoveIncrement);
      assert FoodCell(p) == c;
    }
  }

  /** One more point gives one more speed step exactly when the new score is a multiple of five. */
  lemma SpeedStep(score: nat)
    ensures (score + 1) / ScorePerSpeedUp == score / ScorePerSpeedUp + (if (score + 1) % ScorePerSpeedUp == 0 then 1 else 0)
  {
  }

  lemma InitialInv(draws: seq<Draw>)
    requires HasFreeDraw(InitialBody, draws)
    ensures Inv(Initial(draws))
  {
    var s := Initial(draws);
    assert s.body[1] != s.food && s.body[2] != s.food;
  }

  lemma KeyPressPreservesInv(s: State, keysym: string)
    requires Inv(s)
    ensures Inv(KeyPressed(s, keysym))
  {
  }

  /** A head that is not on a wall can advance one increment without leaving the walls. */
  lemma AdvanceInside(c: Cell, d: Direction)
    requires OnGrid(c) && InBounds(c) && !HitsWall(c)
    ensures OnGrid(Advance(c, d)) && InBounds(Advance(c, d))
  {
    assert LeftWall + MoveIncrement <= c.x <= RightWall - MoveIncrement;
    assert TopWall + MoveIncrement <= c.y <= BottomWall - MoveIncrement;
  }

  /** A tick keeps the invariant, whether it freezes, eats or only moves. */
  lemma TickPreservesInv(s: State, draws: seq<Draw>)
    requires Inv(s) && TickReady(s, draws)
    ensures Inv(Tick(s, draws))
  {
    if !CheckCollisions(s.body) {
      var fed := Fed(s, draws);
      var r := Tick(s, draws);
      assert r.body == Moved(fed.body, s.direction);
      AdvanceInside(s.body[0], s.direction);
      AdvanceReversible(s.body[0], s.direction);
      assert forall i :: 0 <= i < |fed.body| - 1 ==> fed.body[i] == s.body[i];
      if s.body[0] == s.food {
        SpeedStep(s.score);
        assert forall i :: 1 <= i < |r.body| ==> r.body[i] == s.body[i - 1];
      } else {
        assert fed == s;
      }
    }
  }

  lemma ApplyPreservesInv(s: State, e: Event)
    requires Inv(s) && EventReady(s, e)
    ensures Inv(Apply(s, e))
  {
    match e
    case KeyEvent(k) => KeyPressPreservesInv(s, k);
    case TimerEvent(draws) => TickPreservesInv(s, draws);
  }

  lemma {:induction false} RunPreservesInv(s: State, events: seq<Event>)
    requires Inv(s) && Feasible(s, events)
    ensures Inv(Run(s, events))
    decreases |events|
  {
    if events != [] {
      ApplyPreservesInv(s, events[0]);
      RunPreservesInv(Apply(s, events[0]), events[1..]);
    }
  }

  /** Every state a game reaches keeps the invariant. */
  lemma ReachableInv(draws: seq<Draw>, events: seq<Event>)
    requires HasFreeDraw(InitialBody, draws) && Feasible(Initial(draws), events)
    ensures Inv(Run(Initial(draws), events))
  {
    InitialInv(draws);
    RunPreservesInv(Initial(draws), events);
  }

  /** Score, speed counter and length never go down. */
  lemma {:induction false} RunMonotone(s: State, events: seq<Event>)
    requires Feasible(s, events)
    ensures Run(s, events).score >= s.score
    ensures Run(s, events).movesPerSecond >= s.movesPerSecond
    ensures |Run(s, events).body| >= |s.body|
    decreases |events|
  {
    if events != [] {
      var e := events[0];
      var t := Apply(s, e);
      assert t.score >= s.score && t.movesPerSecond >= s.movesPerSecond by {
        if e.TimerEvent? && !CheckCollisions(s.body) {
          var fed := Fed(s, e.draws);
          assert t.score == fed.score && t.movesPerSecond == fed.movesPerSecond;
        }
      }
      RunMonotone(t, events[1..]);
    }
  }

  /**
   * Once the collision test fires, no further event changes body, food,
   * score or speed counter: only key presses still change the direction.
   */
  lemma {:induction false} CollisionFreezes(s: State, events: seq<Event>)
    requires |s.body| > 0 && CheckCollisions(s.body) && Feasible(s, events)
    ensures Run(s, events) == s.(direction := Run(s, events).direction)
    decreases |events|
  {
    if events != [] {
      var t := Apply(s, events[0]);
      assert t == s.(direction := t.direction);
      CollisionFreezes(t, events[1..]);
    }
  }

  /** A tick on a state whose collision test fires changes nothing, so ticking again is harmless. */
  lemma FrozenTickIdempotent(s: State, draws: seq<Draw>)
    requires |s.body| > 0 && CheckCollisions(s.body)
    ensures TickReady(s, draws) && Tick(s, draws) == s && Tick(Tick(s, draws), draws) == s
  {
  }

  /** The first tick of a game moves the three cells right by one increment and eats nothing. */
  lemma FirstTick(draws: seq<Draw>, tickDraws: seq<Draw>)
    requires HasFreeDraw(InitialBody, draws)
    ensures TickReady(Initial(draws), tickDraws)
    ensures var r := Tick(Initial(draws), tickDraws);
      r.body == [Cell(120, 100), Cell(100, 100), Cell(80, 100)] && r.score == 0 && !CheckCollisions(r.body)
  {
    var s := Initial(draws);
    assert !CheckCollisions(s.body);
    var r := Tick(s, tickDraws);
    assert r.body == Moved(s.body, Right);
  }

  /**
   * A head one cell from the left wall, moving left, reaches the wall on this
   * tick without ending the game; the next tick's collision test ends it, and
   * the state stays where the last move left it.
   */
  lemma WallHitSeenNextTick(s: State, draws: seq<Draw>)
    requires Inv(s) && s.direction == Left && s.body[0].x == LeftWall + MoveIncrement
    requires !CheckCollisions(s.body) && TickReady(s, draws)
    ensures var r := Tick(s, draws);
      r.body[0] == Cell(LeftWall, s.body[0].y) && CheckCollisions(r.body) && Tick(r, draws) == r
  {
  }

  /**
   * The food test looks at the head before it moves: a head that moves onto
   * the food scores nothing on that tick and scores on the next one.
   */
  lemma EatingSeenNextTick(s: State, draws: seq<Draw>, next: seq<Draw>)
    requires Inv(s) && !CheckCollisions(s.body) && s.body[0] != s.food
    requires Advance(s.body[0], s.direction) == s.food
    requires TickReady(s, draws)
    ensures var r := Tick(s, draws);
      r.score == s.score && r.body[0] == r.food && |r.body| == |s.body|
    ensures var r := Tick(s, draws);
      !CheckCollisions(r.body) && HasFreeDraw(r.body, next) ==>
        TickReady(r, next) && Tick(r, next).score == s.score + 1 && |Tick(r, next).body| == |s.body| + 1
  {
  }

  /**
   * Two key presses between ticks can turn the snake around: the opposite
   * test compares with the direction last accepted, not the one last moved in.
   * From the start, "Up" then "Left" makes the next move land on the neck,
   * and the tick after that ends the game.
   */
  lemma QuickTurnsReachNeck(draws: seq<Draw>)
    requires HasFreeDraw(InitialBody, draws)
    ensures var s := KeyPressed(KeyPressed(Initial(draws), "Up"), "Left");
      s.direction == Left && TickReady(s, []) &&
      Tick(s, []).body == [Cell(80, 100), Cell(100, 100), Cell(80, 100)] && CheckCollisions(Tick(s, []).body)
  {
    var s0 := Initial(draws);
    NameParses(Up);
    NameParses(Left);
    var s := KeyPressed(KeyPressed(s0, "Up"), "Left");
    assert KeyPressed(s0, "Up").direction == Up by { OtherKeyTaken(Right, Up); }
    assert s.direction == Left by { OtherKeyTaken(Up, Left); }
    assert !CheckCollisions(s.body);
    var r := Tick(s, []);
    assert r.body == Moved(s.body, Left);
    assert r.body[2] == r.body[0];
  }
}
