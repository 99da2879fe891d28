/** The game state and the rules that update it: movement, growth, apple
    redraw, collision, restart, rasterisation and one step of the main loop. */
module Snake {
  import opened Grid
  import opened Keypad
  import opened Display

  /** The body a game starts with, and restarts with: head (1,0), tail (0,0). */
  const InitialBody: seq<Cell> := [Cell(1, 0), Cell(0, 0)]

  /** An apple cell from two values of rand(), each reduced modulo 16. */
  function Draw(rx: nat, ry: nat): (c: Cell)
    ensures InGrid(c)
    ensures c.x == rx % 16 && c.y == ry % 16
  {
    Cell(rx % 16, ry % 16)
  }

  /** Whether a step from the head in direction d lands on the apple. */
  predicate Eats(body: seq<Cell>, apple: Cell, d: Direction)
    requires |body| >= 1
  {
    Step(body[0], d) == apple
  }

  /** The body after one move: the shifted head is prepended, and the tail
      is dropped unless the new head is on the apple. */
  function Moved(body: seq<Cell>, apple: Cell, d: Direction): (r: seq<Cell>)
    requires |body| >= 2
    ensures |r| == |body| + (if Step(body[0], d) == apple then 1 else 0)
    ensures r[0] == Step(body[0], d)
    ensures r[1..] == body[..|r| - 1]
  {
    var head := Step(body[0], d);
    if head == apple then [head] + body else [head] + body[..|body| - 1]
  }

  /** The head meets a node strictly between the head and the last node;
      the last node itself is never compared. */
  predicate HitsSelf(b: seq<Cell>)
    requires |b| >= 2
    ensures HitsSelf(b) <==> b[0] in b[1..|b| - 1]
  {
    exists i :: 1 <= i < |b| - 1 && b[i] == b[0]
  }

  /** The verdict snakeMove returns for the body it leaves. */
  predicate GameOver(b: seq<Cell>)
    requires |b| >= 2
    ensures !GameOver(b) ==> InGrid(b[0]) && forall i :: 1 <= i < |b| - 1 ==> b[i] != b[0]
  {
    !InGrid(b[0]) || HitsSelf(b)
  }

  /** The apple after the retry loop, given the grown body and the values
      rand() returns. The loop's cursor over the body is set once, before the
      loop, so only the first draw is compared with the body; a second draw is
      kept whatever it is. */
  function Redraw(grown: seq<Cell>, rand: seq<nat>): (a: Cell)
    requires |rand| >= 4
    ensures InGrid(a)
    ensures a == Draw(rand[0], rand[1]) || a == Draw(rand[2], rand[3])
    ensures Draw(rand[0], rand[1]) !in grown ==> a == Draw(rand[0], rand[1])
    ensures Draw(rand[0], rand[1]) in grown ==> a == Draw(rand[2], rand[3])
  {
    var first := Draw(rand[0], rand[1]);
    if first in grown then Draw(rand[2], rand[3]) else first
  }

  /** The number of rand() values the retry loop consumes: two per draw. */
  function RandUsed(grown: seq<Cell>, rand: seq<nat>): (n: nat)
    requires |rand| >= 2
    ensures n == 2 || n == 4
    ensures n == 2 <==> Draw(rand[0], rand[1]) !in grown
  {
    if Draw(rand[0], rand[1]) in grown then 4 else 2
  }

  class Game {
    /** The snake's cells, head first. */
    var body: seq<Cell>
    var apple: Cell
    /** The commanded heading; DEAD while the game-over image is shown. */
    var direction: Direction
    var gameOver: bool
    /** The 32-byte bitmap handed to the display refresh. */
    var display: array<bv8>

    /** What holds between steps of the main loop: the body has at least two
        cells, all of them on the field except possibly the head of a body
        that just ended the game, the apple is on the field, and DEAD is only
        ever the heading of a finished game. */
    ghost predicate Valid()
      reads this
    {
      |body| >= 2 && display.Length == 32 && InGrid(apple) &&
      (forall i :: 1 <= i < |body| ==> InGrid(body[i])) &&
      (!gameOver ==> InGrid(body[0])) &&
      (direction == DEAD ==> gameOver)
    }

    /** The start of main: the two-cell body, an apple from two rand()
        values, heading RIGHT and a cleared display buffer. */
    constructor (rx: nat, ry: nat)
      ensures Valid() && fresh(display)
      ensures body == InitialBody && apple == Draw(rx, ry)
      ensures direction == RIGHT && !gameOver
      ensures display[..] == seq(32, _ => 0)
    {
      body := InitialBody;
      apple := Draw(rx, ry);
      direction := RIGHT;
      gameOver := false;
      display := new bv8[32](_ => 0);
    }

    /** snakeMove: advances the snake one cell in direction d. `rand` holds
        the values rand() would return, in order; `used` is how many of them
        the apple redraw consumed. */
    method Move(d: Direction, rand: seq<nat>) returns (over: bool, used: nat)
      requires |body| >= 2 && |rand| >= 4
      modifies this
      ensures body == Moved(old(body), old(apple), d)
      ensures Eats(old(body), old(apple), d) ==> apple == Redraw(body, rand) && used == RandUsed(body, rand)
      ensures !Eats(old(body), old(apple), d) ==> apple == old(apple) && used == 0
      ensures over == GameOver(body)
      ensures direction == old(direction) && gameOver == old(gameOver) && display == old(display)
    {
      var head := Step(body[0], d);
      body := [head] + body;
      used := 0;
      if head == apple {
        // Create a new apple
        var inside := true;
        var cursor := 0;  // set once, before the retry loop
        while inside
          invariant body == [head] + old(body)
          invariant direction == old(direction) && gameOver == old(gameOver) && display == old(display)
          invariant used == 0 ==> inside && cursor == 0
          invariant used == 2 ==> cursor == |body| && apple == Draw(rand[0], rand[1]) && (inside <==> apple in body)
          invariant used == 4 ==> cursor == |body| && !inside && apple == Draw(rand[2], rand[3]) && Draw(rand[0], rand[1]) in body
          invariant used == 0 || used == 2 || used == 4
          decreases 4 - used
        {
          inside := false;
          apple := Draw(rand[used], rand[used + 1]);
          used := used + 2;
          ghost var start := cursor;
          while cursor < |body|
            invariant start <= cursor <= |body|
            invariant inside <==> apple in body[start..cursor]
          {
            if body[cursor] == apple {
              inside := true;
            }
            cursor := cursor + 1;
          }
          assert start == 0 ==> body[start..cursor] == body;
        }
      } else {
        body := body[..|body| - 1];
      }
      over := false;
      if body[0].x >= Size || body[0].y >= Size {
        over := true;
      }
      var node := 1;
      while node < |body| - 1
        invariant 1 <= node <= |body| - 1
        invariant over <==> !InGrid(body[0]) || exists j :: 1 <= j < node && body[j] == body[0]
      {
        if body[0] == body[node] {
          over := true;
        }
        node := node + 1;
      }
    }

    /** restart: the body goes back to its two starting cells whatever its
        length; the apple, the heading and the verdict are left alone. */
    method Restart()
      modifies this
      ensures body == InitialBody
      ensures apple == old(apple) && direction == old(direction)
      ensures gameOver == old(gameOver) && display == old(display)
    {
      body := [Cell(1, 0), Cell(0, 0)];
    }

    /** The local 16x16 dot array of prepareArray, indexed by x first: every
        body cell and then the apple set to true. */
    method Dots() returns (grid: array2<bool>)
      requires forall i :: 0 <= i < |body| ==> InGrid(body[i])
      requires InGrid(apple)
      ensures fresh(grid) && grid.Length0 == Size && grid.Length1 == Size
      ensures forall x, y :: 0 <= x < Size && 0 <= y < Size ==> grid[x, y] == Lit(body, apple, x, y)
    {
      grid := new bool[Size, Size]((_, _) => false);
      var n := 0;
      while n < |body|
        invariant 0 <= n <= |body|
        invariant forall x, y :: 0 <= x < Size && 0 <= y < Size ==> grid[x, y] == (Cell(x, y) in body[..n])
      {
        grid[body[n].x, body[n].y] := true;
        n := n + 1;
      }
      assert body[..n] == body;
      grid[apple.x, apple.y] := true;
    }

    /** The inner loop of prepareArray: packs dots (x, j) .. (x, j+7) into
        one byte, dot j+k going to bit k. */
    method PackColumn(grid: array2<bool>, x: int, j: int) returns (current: bv8)
      requires grid.Length0 == Size && grid.Length1 == Size
      requires forall x, y :: 0 <= x < Size && 0 <= y < Size ==> grid[x, y] == Lit(body, apple, x, y)
      requires 0 <= x < Size && (j == 0 || j == 8)
      ensures current == PackOctet(Octet(body, apple, x, j / 8))
    {
      ghost var bits := Octet(body, apple, x, j / 8);
      current := 0;
      for k := 0 to 8
        invariant current == Pack(bits, k)
      {
        if grid[x, j + k] {
          current := current | Mask(k);
        }
      }
    }

    /** prepareArray: rasterises the body and the apple into the first 32
        bytes of buf. All cells must be on the field, as they are whenever
        the game is not over. */
    method PrepareArray(buf: array<bv8>)
      requires buf.Length >= 32
      requires forall i :: 0 <= i < |body| ==> InGrid(body[i])
      requires InGrid(apple)
      modifies buf
      ensures buf[..32] == Bitmap(body, apple)
      ensures buf[32..] == old(buf[32..])
    {
      var grid := Dots();
      ghost var target := Bitmap(body, apple);
      var p := 0;
      for i := 0 to Size
        invariant p == 2 * i
        invariant forall q :: 0 <= q < p ==> buf[q] == target[q]
        invariant forall q :: 32 <= q < buf.Length ==> buf[q] == old(buf[q])
        modifies buf
      {
        var j := 0;
        while j < Size
          invariant j == 0 || j == 8 || j == 16
          invariant p == 2 * i + j / 8
          invariant forall q :: 0 <= q < p ==> buf[q] == target[q]
          invariant forall q :: 32 <= q < buf.Length ==> buf[q] == old(buf[q])
          modifies buf
        {
          var current := PackColumn(grid, i, j);
          assert target[p] == PackOctet(Octet(body, apple, i, j / 8));
          buf[p] := current;
          p := p + 1;
          j := j + 8;
        }
      }
      assert buf[..32] == target;
    }

    /** One pass of the main loop. While the game runs: move, and on a
        collision switch the heading to DEAD; otherwise redraw the bitmap and
        scan the keypad once. After a game over: a heading other than DEAD
        restarts the game, and DEAD scans the keypad for one. */
    method Tick(rand: seq<nat>, keys: Keys)
      requires Valid() && |rand| >= 4
      modifies this, display
      ensures Valid() && display == old(display)
      ensures !old(gameOver) ==>
        body == Moved(old(body), old(apple), old(direction)) &&
        apple == (if Eats(old(body), old(apple), old(direction)) then Redraw(body, rand) else old(apple)) &&
        gameOver == GameOver(body) &&
        direction == (if gameOver then DEAD else Steer(old(direction), keys)) &&
        display[..] == (if gameOver then old(display[..]) else Bitmap(body, apple))
      ensures old(gameOver) && old(direction) != DEAD ==>
        body == InitialBody && apple == old(apple) && !gameOver &&
        direction == old(direction) && display[..] == old(display[..])
      ensures old(gameOver) && old(direction) == DEAD ==>
        body == old(body) && apple == old(apple) && gameOver &&
        direction == Steer(DEAD, keys) && display[..] == old(display[..])
    {
      if !gameOver {
        var over, _ := Move(direction, rand);
        gameOver := over;
        if gameOver {
          direction := DEAD;
        }
        if !gameOver {
          PrepareArray(display);
          direction := KeyboardScan(direction, keys);
        }
      } else {
        if direction != DEAD {
          gameOver := false;
          Restart();
        } else {
          direction := KeyboardScan(direction, keys);
        }
      }
    }
  }

  /** The old body follows the new head unchanged: with the apple eaten the
      body grows by one and keeps its tail, otherwise exactly the old last
      cell is removed. Either way the body keeps at least two cells. */
  lemma MovedShape(body: seq<Cell>, apple: Cell, d: Direction)
    requires |body| >= 2
    ensures Moved(body, apple, d)[0] == Step(body[0], d)
    ensures Eats(body, apple, d) ==> Moved(body, apple, d) == [Step(body[0], d)] + body
    ensures !Eats(body, apple, d) ==> Moved(body, apple, d) + [body[|body| - 1]] == [Step(body[0], d)] + body
    ensures |Moved(body, apple, d)| == |body| + (if Eats(body, apple, d) then 1 else 0) >= 2
  {
  }

  /** In terms of the body before the move, the game ends exactly when the new
      head leaves the field or lands on an old cell other than the last one
      compared: with the apple eaten every old cell but the tail is compared,
      otherwise every old cell but the last two. */
  lemma MoveEndsGame(body: seq<Cell>, apple: Cell, d: Direction)
    requires |body| >= 2
    ensures GameOver(Moved(body, apple, d)) <==>
      !InGrid(Step(body[0], d)) ||
      exists j :: 0 <= j < |body| - (if Eats(body, apple, d) then 1 else 2) && body[j] == Step(body[0], d)
  {
    var m := Moved(body, apple, d);
    var k := if Eats(body, apple, d) then 1 else 2;
    assert forall j :: 0 <= j < |body| - k ==> m[j + 1] == body[j];
    if HitsSelf(m) {
      var i :| 1 <= i < |m| - 1 && m[i] == m[0];
      assert body[i - 1] == Step(body[0], d);
    }
  }

  /** A step across a border always ends the game, in particular LEFT from
      column 0 and UP from row 0, which wrap to 255. */
  lemma WallEndsGame(body: seq<Cell>, apple: Cell, d: Direction)
    requires |body| >= 2 && InGrid(body[0]) && InGrid(apple)
    requires (d == UP && body[0].y == 0) || (d == LEFT && body[0].x == 0) ||
      (d == DOWN && body[0].y == Size - 1) || (d == RIGHT && body[0].x == Size - 1)
    ensures !Eats(body, apple, d)
    ensures GameOver(Moved(body, apple, d))
  {
    LeavesGrid(body[0], d);
  }

  /** A head that lands on an old cell which is compared ends the game. */
  lemma SelfHitEndsGame(body: seq<Cell>, apple: Cell, d: Direction, j: int)
    requires |body| >= 2 && 0 <= j < |body| - 2 && body[j] == Step(body[0], d)
    ensures GameOver(Moved(body, apple, d))
  {
    MoveEndsGame(body, apple, d);
  }

  /** The last node of the new body is never compared with the head: a
      five-cell coil stepping LEFT puts its head on the cell (1,1) that the
      last node still occupies, and the game goes on. */
  lemma LastNodeNeverCompared()
    ensures Moved([Cell(2, 1), Cell(2, 2), Cell(1, 2), Cell(1, 1), Cell(1, 0)], Cell(9, 9), LEFT)
      == [Cell(1, 1), Cell(2, 1), Cell(2, 2), Cell(1, 2), Cell(1, 1)]
    ensures !GameOver([Cell(1, 1), Cell(2, 1), Cell(2, 2), Cell(1, 2), Cell(1, 1)])
  {
  }

  /** The second draw of the retry loop is not compared with the body, so the
      new apple can be placed on the snake: a snake at (1,0),(0,0) eating the
      apple at (2,0), with rand() returning 2, 0, 1, 0. */
  lemma AppleCanLandOnSnake()
    ensures Moved(InitialBody, Cell(2, 0), RIGHT) == [Cell(2, 0), Cell(1, 0), Cell(0, 0)]
    ensures Redraw([Cell(2, 0), Cell(1, 0), Cell(0, 0)], [2, 0, 1, 0]) == Cell(1, 0)
    ensures Cell(1, 0) in Moved(InitialBody, Cell(2, 0), RIGHT)
  {
    assert Draw(2, 0) == Cell(2, 0);
  }

  /** The first move of a fresh game heading RIGHT with the apple at (5,5):
      the head reaches (2,0), the tail (0,0) is dropped, and play goes on. */
  lemma FirstMoveRight()
    ensures Moved(InitialBody, Cell(5, 5), RIGHT) == [Cell(2, 0), Cell(1, 0)]
    ensures !GameOver(Moved(InitialBody, Cell(5, 5), RIGHT))
  {
  }
}
