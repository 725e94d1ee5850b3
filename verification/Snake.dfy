// The rules of the snake game and every play of it.
module Snake {
  const WIDTH: int := 80
  const HEIGHT: int := 60
  const CELLS: int := 4800

  datatype Point = Point(x: int, y: int) {
    predicate OnBoard() {
      0 <= x < WIDTH && 0 <= y < HEIGHT
    }
  }

  datatype Direction = Up | Down | Left | Right

  // The snake array keeps entries beyond the length: what was there before.
  datatype Game = Game(snake: seq<Point>, length: int, food: Point, dir: Direction, seed: nat)

  function Move(p: Point, d: Direction): Point {
    match d
    case Up => Point(p.x, p.y - 1)
    case Down => Point(p.x, p.y + 1)
    case Left => Point(p.x - 1, p.y)
    case Right => Point(p.x + 1, p.y)
  }

  function Opposite(d: Direction): Direction {
    match d
    case Up => Down
    case Down => Up
    case Left => Right
    case Right => Left
  }

  // The linear congruential generator, in 32 bits, masked to 31.
  function NextSeed(seed: nat): nat {
    ((seed * 1103515245 + 12345) % 0x1_0000_0000) % 0x8000_0000
  }

  function FoodAt(seed: nat): Point {
    Point(seed % WIDTH, seed / WIDTH % HEIGHT)
  }

  function SpawnFood(g: Game): Game {
    var seed := NextSeed(g.seed);
    g.(seed := seed, food := FoodAt(seed))
  }

  function Init(g: Game): Game
    requires |g.snake| == CELLS
  {
    SpawnFood(g.(length := 2, snake := g.snake[0 := Point(WIDTH / 2, HEIGHT / 2)], dir := Right))
  }

  // The input filter: the snake cannot be turned back.
  function Steer(dir: Direction, input: char): Direction {
    if (input == 'w' || input == 'W') && dir != Down then Up
    else if (input == 's' || input == 'S') && dir != Up then Down
    else if (input == 'a' || input == 'A') && dir != Right then Left
    else if (input == 'd' || input == 'D') && dir != Left then Right
    else dir
  }

  predicate Hits(g: Game, p: Point) {
    exists i :: 0 <= i < g.length && i < |g.snake| && g.snake[i] == p
  }

  // The array after the shift: entries 1 to length - 1 move up by one.
  function Shifted(snake: seq<Point>, length: int, head: Point): (r: seq<Point>)
    requires 1 <= length <= |snake|
    ensures |r| == |snake| && r[0] == head
    ensures forall i :: 1 <= i < length ==> r[i] == snake[i - 1]
    ensures forall i :: length <= i < |snake| ==> r[i] == snake[i]
  {
    [head] + snake[..length - 1] + snake[length..]
  }

  // update_game returns false, leaving the game as it is, when the head leaves the board or meets the snake.
  predicate GameOver(g: Game)
    requires |g.snake| > 0
  {
    var head := Move(g.snake[0], g.dir);
    !head.OnBoard() || Hits(g, head)
  }

  function Advance(g: Game): (r: Game)
    requires |g.snake| > 0
    ensures |r.snake| == |g.snake|
  {
    var head := Move(g.snake[0], g.dir);
    var moved := if 1 <= g.length <= |g.snake| then g.(snake := Shifted(g.snake, g.length, head)) else g;
    if head == g.food then SpawnFood(moved.(length := g.length + 1)) else moved
  }

  // ----- the shape of the snake

  predicate Adjacent(p: Point, q: Point) {
    exists d :: q == Move(p, d)
  }

  // The first n entries are different cells, each next to the one before.
  ghost predicate Path(snake: seq<Point>, n: int)
    requires n <= |snake|
  {
    && (forall i, j :: 0 <= i < j < n ==> snake[i] != snake[j])
    && (forall i :: 0 < i < n ==> Adjacent(snake[i - 1], snake[i]))
  }

  // All entries are on the board; all segments but the last form a path. The last may be stale, after a meal.
  ghost predicate Inv(g: Game) {
    && |g.snake| == CELLS && 2 <= g.length <= CELLS + 1 && g.food.OnBoard()
    && (forall i :: 0 <= i < CELLS ==> g.snake[i].OnBoard())
    && Path(g.snake, g.length - 1)
  }

  // The snake last moved in direction dir.
  predicate Neck(g: Game)
    requires |g.snake| == CELLS
  {
    g.snake[0] == Move(g.snake[1], g.dir)
  }

  // ----- pigeonhole

  function Cell(p: Point): int {
    p.y * WIDTH + p.x
  }

  lemma CellInjective(p: Point, q: Point)
    requires p.OnBoard() && q.OnBoard() && Cell(p) == Cell(q)
    ensures p == q && 0 <= Cell(p) < CELLS
  {
  }

  function Below(n: nat): (r: set<int>)
    ensures forall i :: i in r <==> 0 <= i < n
    ensures |r| == n
  {
    if n == 0 then {} else Below(n - 1) + {n - 1}
  }

  lemma SubsetSize(a: set<int>, b: set<int>)
    requires a <= b
    ensures |a| <= |b|
  {
    assert b == a + (b - a);
  }

  lemma {:induction false} DistinctSize(s: seq<int>)
    requires forall i, j :: 0 <= i < j < |s| ==> s[i] != s[j]
    ensures |set x | x in s| == |s|
  {
    if s != [] {
      DistinctSize(s[1..]);
      assert (set x | x in s) == (set x | x in s[1..]) + {s[0]};
    }
  }

  // Different numbers below n are at most n.
  lemma Pigeonhole(s: seq<int>, n: nat)
    requires forall i, j :: 0 <= i < j < |s| ==> s[i] != s[j]
    requires forall i :: 0 <= i < |s| ==> 0 <= s[i] < n
    ensures |s| <= n
  {
    DistinctSize(s);
    SubsetSize((set x | x in s), Below(n));
  }

  // 4800 different cells are all cells: a head on the board meets one of them.
  lemma FullBoardHits(snake: seq<Point>, head: Point)
    requires |snake| == CELLS && head.OnBoard()
    requires forall i :: 0 <= i < CELLS ==> snake[i].OnBoard()
    requires forall i, j :: 0 <= i < j < CELLS ==> snake[i] != snake[j]
    ensures exists i :: 0 <= i < CELLS && snake[i] == head
  {
    if forall i :: 0 <= i < CELLS ==> snake[i] != head {
      var cells := seq(CELLS + 1, i requires 0 <= i <= CELLS => if i < CELLS then Cell(snake[i]) else Cell(head));
      forall i, j | 0 <= i < j < |cells|
        ensures cells[i] != cells[j]
      {
        if cells[i] == cells[j] {
          CellInjective(snake[i], if j < CELLS then snake[j] else head);
        }
      }
      forall i | 0 <= i < |cells|
        ensures 0 <= cells[i] < CELLS
      {
        var p := if i < CELLS then snake[i] else head;
        CellInjective(p, p);
      }
      Pigeonhole(cells, CELLS);
    }
  }

  // A move that is not the end of the game shifts inside the array.
  lemma MoveFits(g: Game)
    requires Inv(g) && !GameOver(g)
    ensures g.length <= CELLS
  {
    if g.length == CELLS + 1 {
      FullBoardHits(g.snake, Move(g.snake[0], g.dir));
    }
  }

  // ----- every play

  lemma AdvanceKeepsInv(g: Game)
    requires Inv(g) && !GameOver(g)
    ensures g.length <= CELLS && Inv(Advance(g)) && Neck(Advance(g))
    ensures Path(Advance(g).snake, g.length)
  {
    MoveFits(g);
    var head, n := Move(g.snake[0], g.dir), g.length;
    var r := Shifted(g.snake, n, head);
    forall i, j | 0 <= i < j < n
      ensures r[i] != r[j]
    {
      if i == 0 {
        assert r[j] == g.snake[j - 1];
      }
    }
    forall i | 0 < i < n
      ensures Adjacent(r[i - 1], r[i])
    {
      if i == 1 {
        assert r[1] == Move(r[0], Opposite(g.dir));
      } else {
        assert r[i - 1] == g.snake[i - 2] && r[i] == g.snake[i - 1];
      }
    }
    forall i | 0 <= i < CELLS
      ensures r[i].OnBoard()
    {
      assert i == 0 || r[i] == g.snake[i] || r[i] == g.snake[i - 1];
    }
    FoodOnBoard(NextSeed(g.seed));
  }

  // A move takes the head one cell on. On the food the snake grows by one and new food is drawn from the next seed;
  // elsewhere length, food and seed stay.
  lemma AdvanceExact(g: Game)
    requires Inv(g) && !GameOver(g)
    ensures
      var h, ate := Advance(g), Move(g.snake[0], g.dir) == g.food;
      && h.snake[0] == Move(g.snake[0], g.dir) && h.dir == g.dir
      && (forall i :: 1 <= i < g.length ==> h.snake[i] == g.snake[i - 1])
      && h.length == g.length + (if ate then 1 else 0)
      && h.seed == (if ate then NextSeed(g.seed) else g.seed)
      && h.food == (if ate then FoodAt(h.seed) else g.food)
  {
    MoveFits(g);
  }

  // The next seed is the low 31 bits of the generator's product and sum, and the food's cell is the seed modulo the
  // number of cells, row by row.
  lemma FoodCell(seed: nat)
    ensures NextSeed(seed) == (seed * 1103515245 + 12345) % 0x8000_0000
    ensures FoodAt(seed).OnBoard() && Cell(FoodAt(seed)) == seed % CELLS
  {
    hide NextSeed;
    SeedBits(seed);
    Rows(seed, seed / 80, seed % 80);
  }

  lemma SeedBits(seed: nat)
    ensures NextSeed(seed) == (seed * 1103515245 + 12345) % 0x8000_0000
  {
    LowBits(seed * 1103515245 + 12345);
  }

  lemma Rows(n: nat, q: nat, r: nat)
    requires n == 80 * q + r && r < 80
    ensures q % 60 * 80 + r == n % 4800
  {
    var a, b := q / 60, q % 60;
    assert q == 60 * a + b && 80 * q == 4800 * a + 80 * b;
    CellRest(n, a, 80 * b + r);
  }

  lemma CellRest(n: nat, a: nat, c: nat)
    requires n == 4800 * a + c && c < 4800
    ensures n % 4800 == c
  {
  }

  lemma LowBits(n: nat)
    ensures n % 0x1_0000_0000 % 0x8000_0000 == n % 0x8000_0000
  {
  }

  // The cell that the head steps to after a key: one up, down, left or right for the keys w, s, a and d of either case,
  // but for the key against the direction, which like every other key changes nothing.
  lemma KeyMoves(p: Point, dir: Direction, key: char)
    ensures
      var q := Move(p, Steer(dir, key));
      if key in "wW" && dir != Down then q.x == p.x && q.y == p.y - 1
      else if key in "sS" && dir != Up then q.x == p.x && q.y == p.y + 1
      else if key in "aA" && dir != Right then q.x == p.x - 1 && q.y == p.y
      else if key in "dD" && dir != Left then q.x == p.x + 1 && q.y == p.y
      else Steer(dir, key) == dir
  {
  }

  lemma FoodOnBoard(seed: nat)
    ensures FoodAt(seed).OnBoard()
  {
  }

  lemma InitKeepsInv(g: Game)
    requires |g.snake| == CELLS && forall i :: 0 <= i < CELLS ==> g.snake[i].OnBoard()
    ensures Inv(Init(g))
  {
    FoodOnBoard(NextSeed(g.seed));
  }

  // The loop of run_snake_game for a sequence of keys; the last component says whether the game still runs.
  function Play(g: Game, keys: string): (r: (Game, bool))
    requires |g.snake| > 0
    ensures |r.0.snake| == |g.snake|
    decreases |keys|
  {
    if keys == "" then (g, true)
    else if keys[0] == 'q' then (g, false)
    else
      var steered := g.(dir := Steer(g.dir, keys[0]));
      if GameOver(steered) then (steered, false) else Play(Advance(steered), keys[1..])
  }

  // In every play the length never exceeds the number of cells by more than one, all entries are on the board, and
  // all segments but the last form a connected path that does not cross itself.
  lemma {:induction false} PlayKeepsInv(g: Game, keys: string)
    requires Inv(g)
    ensures Inv(Play(g, keys).0)
    decreases |keys|
  {
    hide GameOver, Advance, Path;
    if keys != "" && keys[0] != 'q' {
      var steered := g.(dir := Steer(g.dir, keys[0]));
      if !GameOver(steered) {
        AdvanceKeepsInv(steered);
        PlayKeepsInv(Advance(steered), keys[1..]);
      }
    }
  }

  // Every move that a play makes shifts inside the array: before it the length is at most the number of cells.
  lemma PlayStaysInArray(g: Game, keys: string, key: char)
    requires Inv(g)
    ensures
      var h := Play(g, keys).0;
      var steered := h.(dir := Steer(h.dir, key));
      !GameOver(steered) ==> 2 <= steered.length <= CELLS
  {
    hide GameOver, Path;
    PlayKeepsInv(g, keys);
    var h := Play(g, keys).0;
    var steered := h.(dir := Steer(h.dir, key));
    if !GameOver(steered) {
      MoveFits(steered);
    }
  }

  // The number of moves of a play that end on the food of that moment.
  function Meals(g: Game, keys: string): nat
    requires |g.snake| > 0
    decreases |keys|
  {
    if keys == "" || keys[0] == 'q' then 0
    else
      var steered := g.(dir := Steer(g.dir, keys[0]));
      if GameOver(steered) then 0
      else (if Move(g.snake[0], steered.dir) == g.food then 1 else 0) + Meals(Advance(steered), keys[1..])
  }

  // The snake is as long as it was at first plus one for each meal.
  lemma {:induction false} PlayGrows(g: Game, keys: string)
    requires Inv(g)
    ensures Play(g, keys).0.length == g.length + Meals(g, keys)
    decreases |keys|
  {
    hide GameOver, Advance, Inv;
    if keys != "" && keys[0] != 'q' {
      var steered := g.(dir := Steer(g.dir, keys[0]));
      SteeredInv(g, steered);
      if !GameOver(steered) {
        AdvanceKeepsInv(steered);
        AdvanceExact(steered);
        PlayGrows(Advance(steered), keys[1..]);
      }
    }
  }

  lemma SteeredInv(g: Game, steered: Game)
    requires Inv(g) && steered == g.(dir := steered.dir)
    ensures Inv(steered) && steered.snake == g.snake
  {
  }

  // From a new game: two and one for each meal, and never more than the cells and one.
  lemma NewGameGrows(g: Game, keys: string)
    requires |g.snake| == CELLS && forall i :: 0 <= i < CELLS ==> g.snake[i].OnBoard()
    ensures Play(Init(g), keys).0.length == 2 + Meals(Init(g), keys) <= CELLS + 1
  {
    InitKeepsInv(g);
    PlayGrows(Init(g), keys);
    PlayKeepsInv(Init(g), keys);
  }

  lemma {:induction false} PlayKeepsNeck(g: Game, keys: string)
    requires Inv(g) && (Neck(g) || keys != "") && Play(g, keys).1
    ensures Neck(Play(g, keys).0)
    decreases |keys|
  {
    hide GameOver, Advance, Path, Neck;
    if keys != "" {
      var steered := g.(dir := Steer(g.dir, keys[0]));
      AdvanceKeepsInv(steered);
      PlayKeepsNeck(Advance(steered), keys[1..]);
    }
  }

  // After the first move no key makes the snake step onto its neck.
  lemma NoTurningBack(g: Game, keys: string, key: char)
    requires Inv(g) && keys != "" && Play(g, keys).1
    ensures
      var h := Play(g, keys).0;
      Move(h.snake[0], Steer(h.dir, key)) != h.snake[1]
  {
    hide GameOver, Advance, Path;
    PlayKeepsNeck(g, keys);
  }

  // Before the first move it can. Entry 1 is left over from an earlier game, and whatever the first key is, the new
  // game ends at once exactly when the snake steps onto that entry.
  lemma FirstMoveEnds(g: Game, key: char)
    requires |g.snake| == CELLS
    ensures
      var h := Init(g);
      GameOver(h.(dir := Steer(h.dir, key))) <==> g.snake[1] == Move(Point(WIDTH / 2, HEIGHT / 2), Steer(Right, key))
  {
    var h := Init(g);
    var head := Move(h.snake[0], Steer(h.dir, key));
    assert h.snake[0] == Point(40, 30) && h.snake[1] == g.snake[1];
    assert h.snake[1] == head ==> Hits(h.(dir := Steer(h.dir, key)), head);
  }

  // Without a key that turns it: exactly when entry 1 is the cell on the right of the start.
  lemma StaleNeckEndsGame(g: Game)
    requires |g.snake| == CELLS
    ensures GameOver(Init(g)) <==> g.snake[1] == Point(41, 30)
  {
    FirstMoveEnds(g, ' ');
    assert Init(g).(dir := Steer(Right, ' ')) == Init(g);
  }

  // The array and the seed as the program starts.
  function AtStart(): Game {
    Game(seq(CELLS, _ => Point(0, 0)), 0, Point(0, 0), Up, 12345)
  }

  lemma FirstSeed()
    ensures NextSeed(12345) == 1406932606 && FoodAt(1406932606) == Point(46, 57)
  {
  }

  // The first food of the program.
  lemma FirstFood()
    ensures Init(AtStart()).seed == 1406932606 && Init(AtStart()).food == Point(46, 57)
  {
    hide NextSeed, FoodAt;
    FirstSeed();
  }

  // A move to the right over a free cell.
  lemma MoveRight(g: Game)
    requires |g.snake| == CELLS && 2 <= g.length <= 3 && g.dir == Right && Move(g.snake[0], Right).OnBoard()
    requires g.snake[0] != Move(g.snake[0], Right) && g.snake[1] != Move(g.snake[0], Right)
    requires g.snake[2] != Move(g.snake[0], Right)
    ensures !GameOver(g)
    ensures
      var r := Advance(g);
      && r.snake[0] == Move(g.snake[0], Right) && r.snake[1] == g.snake[0] && r.dir == Right
      && (r.snake[2] == g.snake[1] || r.snake[2] == g.snake[2]) && g.length <= r.length <= g.length + 1
  {
  }

  // Two moves to the right and quitting leave such an array: the next game is over before a key is pressed.
  lemma SecondGameEnds()
    ensures GameOver(Init(Play(Init(AtStart()), "ddq").0))
  {
    hide GameOver, Advance, FoodAt;
    var g := Init(AtStart());
    assert Steer(Right, 'd') == Right;
    assert g.(dir := Right) == g;
    MoveRight(g);
    var h := Advance(g);
    assert h.(dir := Right) == h;
    MoveRight(h);
    var keys := "ddq";
    assert keys[1..] == "dq" && keys[1..][1..] == "q";
    assert Play(Advance(h), "q").0 == Advance(h);
    assert Play(h, "dq").0 == Advance(h);
    assert Play(g, keys).0 == Advance(h);
    StaleNeckEndsGame(Advance(h));
  }

  // A snake of all cells cannot move.
  lemma FullBoardEnds(g: Game)
    requires Inv(g) && g.length == CELLS + 1
    ensures GameOver(g)
  {
    if !GameOver(g) {
      MoveFits(g);
    }
  }
}
