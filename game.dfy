/** The game: a snake, the food on the grid and whether a round is running.
    Each tick advances the snake, lets it eat, and ends the round on a
    collision with its own body or with the edge of the grid. */
module Games {
  import opened Vectors
  import opened Snakes

  /** Number of cells along each side of the square grid. */
  const GameWidth: int := 26

  /** Points shown for a snake allowed `maxLength` cells: ten per food eaten. */
  function Score(maxLength: int): (r: int)
    ensures r >= 0 <==> maxLength >= InitialLength
  {
    (maxLength - InitialLength) * 10
  }

  /** Every food eaten, which raises `maxLength` by one, adds ten points. */
  lemma ScoreGrowsByTen(maxLength: int, eaten: nat)
    ensures Score(maxLength + eaten) == Score(maxLength) + 10 * eaten
  {
  }

  /** What the food pass of a tick leaves: the food list and how many were eaten. */
  datatype Feeding = Feeding(food: seq<Vector>, eaten: nat)

  /** The food pass from index `k` on, with `eaten` items already eaten.
      It visits indices `k` up to the list's original length (the length
      never changes). A food at `head` is removed, the later entries move
      down one place, and the next position from `spawns` is appended; the
      visit then goes on at the NEXT index, so the entry that moved into
      the freed place is not looked at. */
  function Feed(food: seq<Vector>, k: nat, head: Vector, spawns: seq<Vector>, eaten: nat): (r: Feeding)
    requires k <= |food| <= |spawns|
    requires eaten <= k
    ensures |r.food| == |food|
    ensures eaten <= r.eaten <= eaten + (|food| - k)
    ensures r.food[..k] == food[..k]
    decreases |food| - k
  {
    if k == |food| then Feeding(food, eaten)
    else if head.Equal(food[k]) then
      var next := food[..k] + food[k + 1..] + [spawns[eaten]];
      assert next[..k] == food[..k];
      Feed(next, k + 1, head, spawns, eaten + 1)
    else
      Feed(food, k + 1, head, spawns, eaten)
  }

  /** Nothing is eaten exactly when no food from index `k` on lies at the head,
      and then the food list is left as it was. */
  lemma {:induction false} FeedEatsIff(food: seq<Vector>, k: nat, head: Vector, spawns: seq<Vector>, eaten: nat)
    requires k <= |food| <= |spawns|
    requires eaten <= k
    ensures Feed(food, k, head, spawns, eaten).eaten == eaten <==> head !in food[k..]
    ensures head !in food[k..] ==> Feed(food, k, head, spawns, eaten) == Feeding(food, eaten)
    decreases |food| - k
  {
    if k < |food| {
      assert food[k..] == [food[k]] + food[k + 1..];
      if head != food[k] {
        FeedEatsIff(food, k + 1, head, spawns, eaten);
      }
    }
  }

  /** The `n` copies of `v`. */
  function Copies(v: Vector, n: nat): (m: multiset<Vector>)
    ensures |m| == n
  {
    if n == 0 then multiset{} else Copies(v, n - 1) + multiset{v}
  }

  /** `food` holds what `start` held, less `eaten` foods at `head`, plus
      the first `eaten` spawn positions. */
  ghost predicate Balanced(start: seq<Vector>, food: seq<Vector>, head: Vector, spawns: seq<Vector>, eaten: nat)
    requires eaten <= |spawns|
  {
    multiset(food) + Copies(head, eaten) == multiset(start) + multiset(spawns[..eaten])
  }

  /** Every food a whole pass eats lay at the head, and each is replaced by
      the next spawn position, in order: no food appears or vanishes otherwise. */
  lemma FeedConservesFood(food: seq<Vector>, head: Vector, spawns: seq<Vector>)
    requires |food| <= |spawns|
    ensures var r := Feed(food, 0, head, spawns, 0);
      multiset(r.food) + Copies(head, r.eaten) == multiset(food) + multiset(spawns[..r.eaten])
  {
    FeedConserves(food, food, 0, head, spawns, 0);
  }

  /** The balance against the list `start` a pass began with is kept by the
      rest of the pass from index `k` on. */
  lemma {:induction false} FeedConserves(start: seq<Vector>, food: seq<Vector>, k: nat, head: Vector, spawns: seq<Vector>, eaten: nat)
    requires k <= |food| <= |spawns|
    requires eaten <= k
    ensures var r := Feed(food, k, head, spawns, eaten);
      Balanced(start, food, head, spawns, eaten) ==> Balanced(start, r.food, head, spawns, r.eaten)
    decreases |food| - k, 1
  {
    if k < |food| {
      if head == food[k] {
        FeedConservesOnEat(start, food, k, head, spawns, eaten);
      } else {
        FeedConserves(start, food, k + 1, head, spawns, eaten);
      }
    }
  }

  /** The case of FeedConserves where the food at `k` is eaten. */
  lemma {:induction false} FeedConservesOnEat(start: seq<Vector>, food: seq<Vector>, k: nat, head: Vector, spawns: seq<Vector>, eaten: nat)
    requires k < |food| <= |spawns|
    requires eaten <= k && head == food[k]
    ensures var r := Feed(food, k, head, spawns, eaten);
      Balanced(start, food, head, spawns, eaten) ==> Balanced(start, r.food, head, spawns, r.eaten)
    decreases |food| - k, 0
  {
    var next := food[..k] + food[k + 1..] + [spawns[eaten]];
    assert Feed(food, k, head, spawns, eaten) == Feed(next, k + 1, head, spawns, eaten + 1);
    EatOneBalanced(start, food, k, head, spawns, eaten);
    FeedConserves(start, next, k + 1, head, spawns, eaten + 1);
  }

  /** Eating the food at `k` and appending the next spawn position keeps the balance. */
  lemma EatOneBalanced(start: seq<Vector>, food: seq<Vector>, k: nat, head: Vector, spawns: seq<Vector>, eaten: nat)
    requires k < |food| && eaten < |spawns| && head == food[k]
    ensures Balanced(start, food, head, spawns, eaten) ==>
      Balanced(start, food[..k] + food[k + 1..] + [spawns[eaten]], head, spawns, eaten + 1)
  {
    if Balanced(start, food, head, spawns, eaten) {
      var s := spawns[eaten];
      var next := food[..k] + food[k + 1..] + [s];
      assert food == food[..k] + [food[k]] + food[k + 1..];
      assert spawns[..eaten + 1] == spawns[..eaten] + [s];
      calc {
        multiset(next) + Copies(head, eaten + 1);
        multiset(next) + multiset{head} + Copies(head, eaten);
        multiset(food) + multiset{s} + Copies(head, eaten);
        multiset(start) + multiset(spawns[..eaten]) + multiset{s};
        multiset(start) + multiset(spawns[..eaten + 1]);
      }
    }
  }

  /** The one-food case every reachable game is in: the food is eaten and
      replaced by the first spawn position exactly when it lies at the head. */
  lemma FeedSingle(f: Vector, head: Vector, spawns: seq<Vector>)
    requires 1 <= |spawns|
    ensures Feed([f], 0, head, spawns, 0) == if f == head then Feeding([spawns[0]], 1) else Feeding([f], 0)
  {
    if f == head {
      assert Feed([f], 0, head, spawns, 0) == Feed([spawns[0]], 1, head, spawns, 1);
    } else {
      assert Feed([f], 0, head, spawns, 0) == Feed([f], 1, head, spawns, 0);
    }
  }

  /** With two foods on the head cell, only the first is eaten: the second
      moves into the freed index and the pass has already passed it. */
  lemma FeedSkipsDuplicate(head: Vector, n: Vector)
    requires n != head
    ensures Feed([head, head], 0, head, [n, n], 0) == Feeding([head, n], 1)
  {
    assert Feed([head, head], 0, head, [n, n], 0) == Feed([head, n], 1, head, [n, n], 1);
    assert Feed([head, n], 1, head, [n, n], 1) == Feed([head, n], 2, head, [n, n], 1);
  }

  /** A game: the snake, the food on the grid and whether a round runs. */
  class Game {
    var snake: Snake
    var food: seq<Vector>
    var start: bool

    /** The snake is valid and exactly one food is on the grid. */
    ghost predicate Valid()
      reads this, snake
    {
      snake.Valid() && |food| == 1
    }

    /** A new, stopped game with a fresh snake and one food at `firstFood`
        (the position the random generator would have drawn). */
    constructor (firstFood: Vector)
      ensures Valid() && fresh(snake)
      ensures !start && food == [firstFood]
      ensures snake.body == [] && snake.head == Origin && snake.speed == Vector(1, 0)
      ensures snake.maxLength == InitialLength
    {
      snake := new Snake();
      food := [];
      start := false;
      food := food + [firstFood];
    }

    /** Starts a round with a new snake; the food stays where it is. */
    method StartGame()
      requires Valid()
      modifies this`start, this`snake
      ensures Valid() && fresh(snake) && start && food == old(food)
      ensures snake.body == [] && snake.head == Origin && snake.speed == Vector(1, 0)
      ensures snake.maxLength == InitialLength
    {
      start := true;
      snake := new Snake();
    }

    /** Ends the round; the snake and the food are left as they are. */
    method EndGame()
      requires Valid()
      modifies this`start
      ensures Valid() && !start
    {
      start := false;
    }

    /** One timer tick: a stopped game is untouched; a running one plays a round step. */
    method Tick(spawns: seq<Vector>)
      requires Valid() && |food| <= |spawns|
      modifies this, snake
      ensures Valid() && snake == old(snake)
      ensures !old(start) ==> !start && food == old(food) && unchanged(snake)
      ensures old(start) ==> snake.head == old(snake.head).Add(old(snake.speed)) && snake.speed == old(snake.speed)
      ensures old(start) ==> snake.body == Trimmed(old(snake.body) + [old(snake.head)], old(snake.maxLength))
      ensures old(start) ==>
        var fed := Feed(old(food), 0, snake.head, spawns, 0);
        food == fed.food && snake.maxLength == old(snake.maxLength) + fed.eaten
      ensures old(start) ==> (start <==> snake.head !in snake.body && snake.CheckBoundary(GameWidth))
    {
      if start {
        Step(spawns);
      }
    }

    /** The step of a running round: the snake moves, the food pass runs at
        the new head (`spawns` supplies the positions of the foods generated
        to replace eaten ones, in order), and the round ends if the head is
        on the body or off the grid. */
    method Step(spawns: seq<Vector>)
      requires Valid() && start && |food| <= |spawns|
      modifies this, snake
      ensures Valid() && snake == old(snake)
      ensures snake.head == old(snake.head).Add(old(snake.speed)) && snake.speed == old(snake.speed)
      ensures snake.body == Trimmed(old(snake.body) + [old(snake.head)], old(snake.maxLength))
      ensures var fed := Feed(old(food), 0, snake.head, spawns, 0);
        food == fed.food && snake.maxLength == old(snake.maxLength) + fed.eaten
      ensures start <==> snake.head !in snake.body && snake.CheckBoundary(GameWidth)
    {
      snake.Update();
      ghost var fed := Feed(food, 0, snake.head, spawns, 0);
      var eaten := EatFood(spawns);
      assert food == fed.food && eaten == fed.eaten;
      CheckCollision();
      if !snake.CheckBoundary(GameWidth) {
        EndGame();
      }
    }

    /** The food pass of a running tick: every index of the food list, up to
        its length when the pass begins, is visited once; a food at the head
        raises `maxLength` by one, is cut out of the list, and a new food at
        the next position from `spawns` is appended. */
    method EatFood(spawns: seq<Vector>) returns (eaten: nat)
      requires |food| <= |spawns|
      modifies this`food, snake`maxLength
      ensures var fed := Feed(old(food), 0, snake.head, spawns, 0);
        food == fed.food && eaten == fed.eaten && snake.maxLength == old(snake.maxLength) + eaten
    {
      eaten := 0;
      var k := 0;
      var count := |food|;
      while k < count
        invariant k <= count == |food| <= |spawns|
        invariant eaten <= k
        invariant Feed(food, k, snake.head, spawns, eaten) == Feed(old(food), 0, snake.head, spawns, 0)
        invariant snake.maxLength == old(snake.maxLength) + eaten
      {
        if snake.head.Equal(food[k]) {
          snake.maxLength := snake.maxLength + 1;
          food := food[..k] + food[k + 1..];
          food := food + [spawns[eaten]];
          eaten := eaten + 1;
        }
        k := k + 1;
      }
    }

    /** The collision pass of a running tick: the round ends once for every
        body cell the head lies on. */
    method CheckCollision()
      requires Valid()
      modifies this`start
      ensures Valid()
      ensures start == (old(start) && snake.head !in snake.body)
    {
      var i := 0;
      while i < |snake.body|
        invariant Valid() && i <= |snake.body|
        invariant start == (old(start) && snake.head !in snake.body[..i])
      {
        if snake.head.Equal(snake.body[i]) {
          EndGame();
        }
        i := i + 1;
      }
      assert snake.body[..i] == snake.body;
    }
  }
}
