/** Whole rounds played through the game's own operations, with the
    outcome each must have. */
module Scenarios {
  import opened Vectors
  import opened Snakes
  import opened Games

  /** A new round with no turns and the food off the snake's row: the snake
      runs right along row 0 and the round ends on exactly the 26th tick,
      when the head reaches column 26, with a score of 0. */
  method StraightRun(foodAt: Vector) returns (ticks: nat, score: int)
    requires foodAt.y != 0
    ensures ticks == GameWidth && score == 0
  {
    var game := new Game(foodAt);
    game.StartGame();
    ticks := 0;
    while game.start
      invariant fresh(game) && fresh(game.snake) && game.Valid()
      invariant ticks <= GameWidth && (game.start <==> ticks < GameWidth)
      invariant game.snake.head == Vector(ticks, 0) && game.snake.speed == Vector(1, 0)
      invariant game.food == [foodAt] && game.snake.maxLength == InitialLength
      invariant forall b | b in game.snake.body :: b.y == 0 && b.x < ticks
      decreases GameWidth - ticks
    {
      game.Tick([foodAt]);
      FeedSingle(foodAt, game.snake.head, [foodAt]);
      ticks := ticks + 1;
    }
    score := Score(game.snake.maxLength);
  }

  /** A new snake moving right ignores a request to go left. */
  method TurnBackIgnored() returns (handled: bool, speed: Vector)
    ensures handled && speed == Vector(1, 0)
  {
    var snake := new Snake();
    handled := snake.SetDirection("Left");
    speed := snake.speed;
  }
}
