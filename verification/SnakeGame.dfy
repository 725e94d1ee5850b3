// The snake game over its global variables, updated in place.
module SnakeGame {
  import opened Snake

  class SnakeGame {
    const snake: array<Point>
    var length: int
    var food: Point
    var dir: Direction
    var seed: nat

    constructor ()
      ensures fresh(snake) && Ready() && G() == AtStart()
    {
      snake := new Point[CELLS](_ => Point(0, 0));
      length, food, dir, seed := 0, Point(0, 0), Up, 12345;
      new;
      assert snake[..] == AtStart().snake;
    }

    ghost function G(): Game
      reads this, snake
    {
      Game(snake[..], length, food, dir, seed)
    }

    // What init_game needs: whatever an earlier game left is on the board.
    ghost predicate Ready()
      reads this, snake
    {
      snake.Length == CELLS && forall i :: 0 <= i < CELLS ==> snake[i].OnBoard()
    }

    method SpawnNewFood()
      modifies this`seed, this`food
      ensures G() == SpawnFood(old(G())) && food.OnBoard() && seed < 0x8000_0000
    {
      seed := ((seed * 1103515245 + 12345) % 0x1_0000_0000) % 0x8000_0000;
      food := Point(seed % WIDTH, seed / WIDTH % HEIGHT);
    }

    method InitGame()
      requires Ready()
      modifies this, snake
      ensures G() == Init(old(G())) && Inv(G())
    {
      ghost var g := G();
      length := 2;
      snake[0] := Point(WIDTH / 2, HEIGHT / 2);
      dir := Right;
      assert snake[..] == g.snake[0 := Point(WIDTH / 2, HEIGHT / 2)];
      SpawnNewFood();
      InitKeepsInv(g);
    }

    // The scan of update_game. It meets a cell before it leaves the array.
    method Meets(head: Point) returns (hit: bool)
      requires Inv(G()) && head.OnBoard()
      ensures hit == Hits(G(), head)
    {
      var i := 0;
      while i < length
        invariant 0 <= i <= length && i <= CELLS
        invariant forall j :: 0 <= j < i ==> snake[j] != head
      {
        if i == CELLS {
          FullBoardHits(snake[..], head);
          assert false;
        }
        if snake[i] == head {
          return true;
        }
        i := i + 1;
      }
      return false;
    }

    // The shift of update_game.
    method Shift(head: Point)
      requires 1 <= length <= snake.Length
      modifies snake
      ensures snake[..] == Shifted(old(snake[..]), length, head)
    {
      var i := length - 1;
      while i > 0
        invariant 0 <= i < length
        invariant forall j :: 0 <= j <= i ==> snake[j] == old(snake[j])
        invariant forall j :: i < j < length ==> snake[j] == old(snake[j - 1])
        invariant forall j :: length <= j < snake.Length ==> snake[j] == old(snake[j])
      {
        snake[i] := snake[i - 1];
        i := i - 1;
      }
      snake[0] := head;
      assert snake[..] == Shifted(old(snake[..]), length, head);
    }

    method UpdateGame() returns (ok: bool)
      requires Inv(G())
      modifies this, snake
      ensures ok == !GameOver(old(G()))
      ensures G() == if ok then Advance(old(G())) else old(G())
      ensures Inv(G())
      ensures ok ==> length == old(length) + (if snake[0] == old(food) then 1 else 0)
      ensures ok && snake[0] != old(food) ==> food == old(food) && seed == old(seed)
    {
      hide Path, Hits;
      ghost var g := G();
      var head := Move(snake[0], dir);
      if head.x < 0 || head.x >= WIDTH || head.y < 0 || head.y >= HEIGHT {
        return false;
      }
      var hit := Meets(head);
      if hit {
        return false;
      }
      AdvanceKeepsInv(g);
      AdvanceExact(g);
      Shift(head);
      if head == food {
        length := length + 1;
        SpawnNewFood();
      }
      return true;
    }

    method Input(key: char)
      modifies this`dir
      ensures G() == old(G()).(dir := Steer(old(dir), key)) && dir != Opposite(old(dir))
      ensures old(Inv(G())) ==> Inv(G())
    {
      if key == 'w' || key == 'W' {
        if dir != Down {
          dir := Up;
        }
      } else if key == 's' || key == 'S' {
        if dir != Up {
          dir := Down;
        }
      } else if key == 'a' || key == 'A' {
        if dir != Right {
          dir := Left;
        }
      } else if key == 'd' || key == 'D' {
        if dir != Left {
          dir := Right;
        }
      }
    }

    // The main loop, for the keys that are pressed.
    method RunGame(keys: string) returns (running: bool)
      requires Ready()
      modifies this, snake
      ensures |old(G()).snake| == CELLS && (G(), running) == Play(Init(old(G())), keys) && Inv(G())
    {
      hide Inv, GameOver, Advance, Init;
      InitGame();
      ghost var g := G();
      var i := 0;
      while i < |keys|
        invariant 0 <= i <= |keys| && Inv(G()) && |G().snake| > 0 && |g.snake| > 0
        invariant Play(G(), keys[i..]) == Play(g, keys)
      {
        if keys[i] == 'q' {
          return false;
        }
        Input(keys[i]);
        var ok := UpdateGame();
        if !ok {
          return false;
        }
        i := i + 1;
      }
      return true;
    }
  }
}
