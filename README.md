# Snek game engine in Dafny

This project models the game-state engine of the Snek game: the `Snek` canvas class in `app.py` with all Tk and PIL work removed. The state is:

- the snake body, head first, as a sequence of integer cells;
- the food cell;
- the direction held (`Up`, `Down`, `Left` or `Right`);
- the score;
- the speed counter `moves_per_second`. The source keeps this as a global; here it is a field of the game.

The project has three modules:

- `SnekRules` (snek_rules.dfy) states the rules on values. It has the board constants (`MoveIncrement` = 20, walls at x = 0 and 600 and at y = 20 and 620), key names and the opposite-pair test, one move of the body, the collision test, food placement, the food check and one tick. It also defines the invariant `Inv` that holds between ticks, and `Run` for a sequence of key and timer events.
- `SnekProofs` (snek_proofs.dfy) proves properties of those rules. Direction changes never reverse the direction. A tick keeps `Inv`, and so does every reachable state. Score, speed counter and length never decrease. After a collision everything is frozen except the direction. It also contains concrete games from the starting position.
- `SnekBoard` (snek_board.dfy) has the class `Snek`. Its fields are the ones the source updates in place. Its methods `OnKeyPress`, `MoveSnek`, `CheckFoodCollision`, `SetNewFoodPosition` and `PerformActions` each do what their source method does. Each is proved to produce the state that the matching `SnekRules` function gives.

The model follows the code's tick order. First comes the collision test on the current body; when it fires, the game ends with no further change. Then comes the food test on the head before it moves, and then the move. So a move onto a wall or onto the body is seen at the start of the next tick (`WallHitSeenNextTick`), and a move onto the food scores on the next tick (`EatingSeenNextTick`). Eating appends a copy of the tail cell, and the move that follows drops that copy. The net effect is one extra cell and no duplicate. `TickPreservesInv` shows this: consecutive cells remain adjacent.

Some consequences of the code that the model keeps:

- The collision and food tests look at the body before the move.
- New food can land on the cell the head enters next, so between ticks the head may sit on the food. The invariant is that no cell but the head is on it.
- There is no game-over field: `perform_actions` just does not set the timer again, and `PerformActions` returns that as `running`. `CollisionFreezes` and `FrozenTickIdempotent` show that a further tick would change nothing anyway, so `Run` applies every event.
- The opposite test compares the new direction with the direction last accepted, not the one last moved in. Two key presses between ticks can therefore turn the snake onto its neck. `QuickTurnsReachNeck` shows this from the starting position with "Up" then "Left".

`KeyPressed` (the state update of app.py:96) and `Run` (the sequence of Tk callbacks that key presses and the timer trigger) are plumbing with no contract of their own. `KeyPressPreservesInv`, `RunPreservesInv`, `RunMonotone` and `CollisionFreezes` state their properties.

The randomness of `randint` becomes a caller-supplied sequence of draws. Each draw is a pair in the ranges 1..29 and 3..30 (the type `Draw`). Rejection sampling takes the first draw whose cell is off the body. Its precondition is that some draw is free.

## Model

| member | source | states |
|---|---|---|
| SnekRules.ParseKeysym | app.py:88-93 | a key symbol gives a direction exactly when it is one of the four direction names, and the name of that direction is the symbol |
| SnekRules.Turn | app.py:87-96 | the new direction is the current one or the one the key names; it is never opposite to the current one; a direction key that is not opposite is always taken |
| SnekRules.Moved | app.py:52-64 | the length is kept, the new head is the old head advanced one increment in the direction, and cell i+1 of the new body is cell i of the old body for every i < length-1 |
| SnekRules.CheckCollisions | app.py:78-85 | true exactly when the head x is 0 or 600, or the head y is 20 or 620, or the head equals some cell of body[1:] |
| SnekRules.FoodCell | app.py:119-121 | a pair of draws scaled by the increment is a food cell: x in 20..580 and y in 60..600, both multiples of 20 |
| SnekRules.FirstFreeDraw | app.py:117-124 | rejection sampling stops at a draw whose cell is off the body, and every earlier draw's cell was on the body |
| SnekRules.PlaceFood | app.py:117-124 | the placed food is one of the drawn cells, lies on the food grid and is not in the body |
| SnekRules.Initial | app.py:12-17 | a new game has body [(100,100),(80,100),(60,100)], heads Right with score 0 and speed counter 5, and has food on the food grid off the body |
| SnekRules.Fed | app.py:98-111 | head not on food: nothing changes; head on food: score +1, body +1 with the earlier cells unchanged and the old tail repeated, speed counter +1 exactly when the new score is a multiple of 5, new food off the grown body; the direction never changes |
| SnekRules.Tick | app.py:69-76 | a colliding tick changes nothing; otherwise length and score rise by 1 when the un-moved head was on the food and by 0 otherwise, and the new head is the old head advanced; the direction is unchanged |
| SnekRules.Apply | app.py:18-23 | a key event or a timer tick never shortens the body |
| SnekProofs.OppositeIsReverse | app.py:90-94 | two directions form one of the pairs {Up,Down}, {Left,Right} exactly when one is the reverse of the other |
| SnekProofs.NameParses | app.py:89 | every direction's name reads back as that direction |
| SnekProofs.ReverseKeyIgnored | app.py:92-96 | after any key press, a key naming the reverse of the direction now held is ignored |
| SnekProofs.OtherKeyTaken | app.py:92-96 | a key naming any direction other than the reverse of the current one is taken |
| SnekProofs.AdvanceReversible | app.py:55-62 | advancing and then advancing in the reverse direction returns to the start, and an advance lands on an adjacent cell |
| SnekProofs.FoodGridIsDrawn | app.py:119-121 | a cell is on the food grid exactly when some pair of randint values produces it |
| SnekProofs.SpeedStep | app.py:103-105 | one more point adds one to score/5 exactly when the new score is a multiple of 5 |
| SnekProofs.InitialInv | app.py:14-17 | the initial state satisfies the between-ticks invariant |
| SnekProofs.KeyPressPreservesInv | app.py:87-96 | a key press keeps the invariant |
| SnekProofs.AdvanceInside | app.py:55-62 | a grid-aligned head inside the walls and not on one stays on the grid and inside the walls after one advance |
| SnekProofs.TickPreservesInv | app.py:69-76 | a tick keeps the invariant: length = 3 + score, every cell grid-aligned and within the walls, consecutive cells adjacent, food on the food grid and under no cell but the head, speed counter = 5 + score/5 |
| SnekProofs.ApplyPreservesInv | app.py:69-96 | any key event or tick keeps the invariant |
| SnekProofs.RunPreservesInv | app.py:69-96 | any feasible sequence of events keeps the invariant |
| SnekProofs.ReachableInv | app.py:12-17 | every state reached from a new game satisfies the invariant |
| SnekProofs.RunMonotone | app.py:98-105 | score, speed counter and body length never decrease over any run |
| SnekProofs.CollisionFreezes | app.py:69-72 | once the collision test fires, no sequence of events changes body, food, score or speed counter |
| SnekProofs.FrozenTickIdempotent | app.py:69-72 | a tick on a colliding state changes nothing, and neither does a second such tick |
| SnekProofs.FirstTick | app.py:14-17 | the first tick of a game gives body [(120,100),(100,100),(80,100)], score 0 and no collision |
| SnekProofs.WallHitSeenNextTick | app.py:69-85 | a head at x = 20 moving Left reaches x = 0 on this tick and is stopped by the next tick's collision test, which freezes the state |
| SnekProofs.EatingSeenNextTick | app.py:69-76 | a head that moves onto the food scores nothing on that tick; the next non-colliding tick scores 1 and grows the body by 1 |
| SnekProofs.QuickTurnsReachNeck | app.py:87-96 | from the start, the keys "Up" then "Left" give direction Left, and the next tick puts the head on the neck, so the collision test fires |
| SnekBoard.Snek.constructor | app.py:12-17 | the fields hold the initial state of the rules, which satisfies the invariant |
| SnekBoard.Snek.OnKeyPress | app.py:87-96 | only the direction changes, to the value Turn gives, and it never becomes opposite to the direction held at call time |
| SnekBoard.Snek.MoveSnek | app.py:52-64 | only the body changes, to the moved body of the rules |
| SnekBoard.Snek.CheckFoodCollision | app.py:98-111 | the fields become the state Fed gives |
| SnekBoard.Snek.SetNewFoodPosition | app.py:117-124 | the loop returns the cell of the first draw off the body, which is on the food grid and not in the body |
| SnekBoard.Snek.PerformActions | app.py:69-76 | the fields become the state Tick gives; the game keeps running exactly when the collision test did not fire; the invariant is kept |

## Left out

- Drawing on the Tk canvas is not modelled because it is rendering only. This covers `create_objects`, the images and their coordinates, the score text and `end_game`.
- `load_assets` is not modelled because it is file I/O through PIL and PyInstaller's bundle path. Its `IOError` handling is not modelled for the same reason.
- Timer scheduling (`after`, `GAME_SPEED`, `mainloop`) and the top-level exception handler are not modelled because they are event plumbing. A tick is a call; a key press is a call. `GAME_SPEED` is computed once from the initial counter, so the speed counter never changes the timing. It is kept only as a counter.
- `randint` is not modelled; it is replaced by a finite sequence of draws that the caller supplies. The loop at app.py:118-124 is modelled as a loop over those draws. Its precondition says that some draw gives a free cell. The case where no draw is free, where the source would keep sampling forever (for instance on a full board), is outside the model.
- Python's dynamic typing is not modelled: the direction is always one of four values, and a key symbol is a string. So the missing `else` after the `Up` branch at app.py:61 cannot be reached.
