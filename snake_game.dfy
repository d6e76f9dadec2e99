/** The game: the process-wide state of the source (the body list, the head
    rectangle, the heading, the game state, the score and the apple) as one
    object, with one method per frame function (renderGamePlay, renderPause,
    renderGameOver), the frame dispatch of the main loop and the setup main
    does before the loop. Key presses, the restart click and the random draws
    are parameters. */
module SnakeGame {
  import opened Geometry
  import opened SnakeBody
  import opened Food

  datatype GameState = Running | Paused | GameOver

  /** What the input layer reports for one frame: the W, A, S and D keys held
      down, the P key pressed this frame, and a left click inside the restart
      button this frame. */
  datatype Input = Input(w: bool, a: bool, s: bool, d: bool, pause: bool, restart: bool)

  const InitialLength: int := 3
  /** Points per apple: the source adds SNAKE_BLOCK_SIZE to the score. */
  const Reward: int := BlockSize

  /** The three-segment snake the game starts and restarts with, heading up. */
  function InitialBody(): (b: Body)
    ensures |b| == InitialLength && b[0] == Pos(InitialX, InitialY)
    ensures Connected(b)
    ensures forall i :: 0 <= i < |b| ==> InField(b[i])
    ensures AllAligned(b)
    ensures !HeadHitsBody(b)
  {
    [Pos(InitialX, InitialY), Pos(InitialX, InitialY + BlockSize), Pos(InitialX, InitialY + 2 * BlockSize)]
  }

  /** The key that asks for heading `d`. */
  predicate Held(input: Input, d: Direction)
  {
    match d
    case Up => input.w
    case Left => input.a
    case Down => input.s
    case Right => input.d
  }

  /** The order in which the keys are looked at: W, A, S, D. */
  function Priority(d: Direction): nat
  {
    match d
    case Up => 0
    case Left => 1
    case Down => 2
    case Right => 3
  }

  /** A held key whose heading is not the reverse of the current one. */
  predicate Acceptable(input: Input, current: Direction, d: Direction)
  {
    Held(input, d) && d != Opposite(current)
  }

  /** updateDirection: the first acceptable key in the order W, A, S, D sets
      the heading; with none the heading is kept. */
  function UpdateDirection(current: Direction, input: Input): (r: Direction)
    ensures r != Opposite(current)
    ensures (exists d :: Acceptable(input, current, d)) ==>
      Acceptable(input, current, r) &&
      forall d :: Priority(d) < Priority(r) ==> !Acceptable(input, current, d)
    ensures r != current ==> Acceptable(input, current, r)
    ensures !input.w && !input.a && !input.s && !input.d ==> r == current
  {
    if input.w && current != Down then Up
    else if input.a && current != Right then Left
    else if input.s && current != Up then Down
    else if input.d && current != Left then Right
    else current
  }

  /** Whatever keys are held, the head never steps back onto the segment
      behind it: the only step that would is the reverse of the heading the
      head arrived with, and the rule never picks it. */
  lemma NoReversal(body: Body, current: Direction, input: Input)
    requires |body| >= 2
    requires body[0] == Step(body[1], current)
    ensures Step(body[0], UpdateDirection(current, input)) != body[1]
  {
    var r := UpdateDirection(current, input);
    match current
    case Up =>
    case Down =>
    case Left =>
    case Right =>
  }

  /** The scan for a new apple ends after a meal: when the head of the moved
      body `moved` is on the apple, the scan from the rounded draw over the
      grown body meets a free cell. The source's scan loops for ever exactly
      when this fails. */
  ghost predicate MealScanEnds(moved: Body, d: Direction, apple: Pos, randomX: int, randomY: int)
    requires |moved| >= 1 && randomX >= 0 && randomY >= 0
  {
    moved[0] == apple ==>
      ScanMeetsFreeCell(moved + [Step(Last(moved), d)], Pos(SnapToGrid(randomX), SnapToGrid(randomY)))
  }

  /** A moved body with fewer segments than the scanned region has cells,
      less one for the segment a meal adds, always lets the scan end. */
  lemma ShortSnakeMealScanEnds(moved: Body, d: Direction, apple: Pos, randomX: int, randomY: int)
    requires |moved| >= 1 && |moved| + 1 < ScanCells
    requires BlockSize <= randomX <= BorderWidth && BlockSize <= randomY <= BorderHeight
    ensures MealScanEnds(moved, d, apple, randomX, randomY)
  {
    ShortSnakeScanEnds(moved + [Step(Last(moved), d)], Pos(SnapToGrid(randomX), SnapToGrid(randomY)));
  }

  class Game {
    /** g_list: the snake's cells, head first. */
    var body: Body
    /** g_snakeBodyRec: the head rectangle the move starts from. */
    var head: Pos
    var direction: Direction
    var state: GameState
    var score: int
    /** g_appleRec */
    var apple: Pos

    /** The invariant every frame keeps: at least three segments, the head
        rectangle on the first segment, neighbouring segments, everything on
        the grid, and, outside the game-over screen, one extra segment per
        apple eaten and a head one step ahead of the segment behind it in
        the current heading. */
    ghost predicate Valid()
      reads this
    {
      |body| >= InitialLength && head == body[0] && Connected(body) &&
      AllAligned(body) &&
      InField(apple) && Aligned(apple) &&
      score >= 0 && score % Reward == 0 &&
      (state != GameOver ==> |body| == InitialLength + score / Reward) &&
      (state != GameOver ==> body[0] == Step(body[1], direction))
    }

    /** The setup in main: the apple is placed (against a list that does not
        exist yet, so it stays where the draw put it), then the three-segment
        snake is built. */
    constructor (randomX: int, randomY: int)
      requires BlockSize <= randomX <= BorderWidth && BlockSize <= randomY <= BorderHeight
      ensures Valid()
      ensures body == InitialBody() && head == body[0]
      ensures apple == Pos(SnapToGrid(randomX), SnapToGrid(randomY))
      ensures direction == Up && state == Running && score == 0
    {
      head := Pos(InitialX, InitialY);
      var start := Pos(SnapToGrid(randomX), SnapToGrid(randomY));
      assert !Occupies([], ScanPath(start, 0));
      var placed := MoveToEmptySpace([], start);
      apple := placed;
      body := [];
      direction := Up;
      state := Running;
      score := 0;
      new;
      BuildInitialSnake();
    }

    /** The list building of main and renderGameOver: the head node at the
        start cell and two nodes below it appended with addToEnd. */
    method BuildInitialSnake()
      modifies this`body, this`head
      ensures body == InitialBody() && head == body[0]
    {
      head := Pos(InitialX, InitialY);
      body := [head];
      AddToEnd(Pos(InitialX, InitialY + BlockSize));
      AddToEnd(Pos(InitialX, InitialY + 2 * BlockSize));
    }

    /** deleteLast: unlinks the last node. The walk starts at the second
        node, so the list must have two. */
    method DeleteLast()
      requires |body| >= 2
      modifies this`body
      ensures body == old(body)[..|old(body)| - 1]
    {
      body := body[..|body| - 1];
    }

    /** addToEnd: links one node after the last. */
    method AddToEnd(p: Pos)
      modifies this`body
      ensures body == old(body) + [p]
    {
      body := body + [p];
    }

    /** The move of renderGamePlay: the head rectangle steps one cell in the
        heading, a node for it is prepended and deleteLast drops the tail. */
    method Move()
      requires |body| >= 2 && head == body[0]
      modifies this`body, this`head
      ensures head == Step(old(head), direction)
      ensures body == Advance(old(body), direction)
    {
      head := Step(head, direction);
      body := [head] + body;
      DeleteLast();
      assert body == Advance(old(body), direction);
    }

    /** The meal of renderGamePlay: when eatFood finds the head on the
        apple, the score grows by one reward, the segment it builds is
        appended and a new apple is drawn and moved to the first free cell
        of the scan. */
    method Feed(randomX: int, randomY: int)
      requires |body| >= 1
      requires Aligned(body[0]) && Aligned(apple)
      requires BlockSize <= randomX <= BorderWidth && BlockSize <= randomY <= BorderHeight
      requires MealScanEnds(body, direction, apple, randomX, randomY)
      modifies this`body, this`score, this`apple
      ensures if old(body)[0] == old(apple) then
          body == old(body) + [Step(Last(old(body)), direction)] &&
          score == old(score) + Reward &&
          FirstFreeOnPath(body, Pos(SnapToGrid(randomX), SnapToGrid(randomY)), apple) &&
          !Occupies(body, apple) && InField(apple) && Aligned(apple)
        else
          body == old(body) && score == old(score) && apple == old(apple)
    {
      var tail := EatFood(body, apple, direction);
      if tail.Some? {
        score := score + Reward;
        AddToEnd(tail.value);
        var start := Pos(SnapToGrid(randomX), SnapToGrid(randomY));
        apple := MoveToEmptySpace(body, start);
      }
    }

    /** renderGamePlay without its drawing: turn, move, eat, then the
        self-collision and border tests, and last the pause key, which
        overrides a game over of the same frame. A meal's scan for the new
        apple must end, as the source's loop does not otherwise. */
    method GamePlay(input: Input, randomX: int, randomY: int)
      requires Valid() && state == Running
      requires BlockSize <= randomX <= BorderWidth && BlockSize <= randomY <= BorderHeight
      requires MealScanEnds(Advance(body, UpdateDirection(direction, input)),
        UpdateDirection(direction, input), apple, randomX, randomY)
      modifies this
      ensures Valid()
      ensures direction == UpdateDirection(old(direction), input)
      ensures head == Step(old(head), direction) && body[0] == head
      ensures var moved := Advance(old(body), direction);
        if moved[0] == old(apple) then
          body == moved + [Step(Last(moved), direction)] &&
          score == old(score) + Reward &&
          FirstFreeOnPath(body, Pos(SnapToGrid(randomX), SnapToGrid(randomY)), apple) &&
          !Occupies(body, apple)
        else
          body == moved && score == old(score) && apple == old(apple)
      ensures state ==
        if input.pause then Paused
        else if HeadHitsBody(body) || IsTouchingBorders(body[0].x, body[0].y) == 1 then GameOver
        else Running
    {
      direction := UpdateDirection(direction, input);
      ghost var before := body;
      Move();
      AdvanceKeepsConnected(before, direction);
      AdvanceKeepsAligned(before, direction);
      ghost var moved := body;
      Feed(randomX, randomY);
      if body != moved {
        GrowKeepsConnected(moved, direction);
        GrowKeepsAligned(moved, direction);
      }
      assert body[..2] == moved[..2];

      var colliding := AreBlocksColliding(body);
      if colliding == 1 {
        state := GameOver;
      }
      if IsTouchingBorders(body[0].x, body[0].y) == 1 {
        state := GameOver;
      }
      if input.pause {
        state := Paused;
      }
    }

    /** renderPause without its drawing: P resumes. */
    method PauseFrame(input: Input)
      requires Valid() && state == Paused
      modifies this`state
      ensures Valid()
      ensures state == if input.pause then Running else Paused
    {
      if input.pause {
        state := Running;
      }
    }

    /** renderGameOver without its drawing: the snake is rebuilt on every
        frame spent on this screen; a click on the restart button clears the
        score, resumes and heads up. The apple stays where it was. */
    method GameOverFrame(input: Input)
      requires Valid() && state == GameOver
      modifies this
      ensures Valid()
      ensures body == InitialBody() && head == body[0] && apple == old(apple)
      ensures if input.restart then score == 0 && state == Running && direction == Up
              else score == old(score) && state == GameOver && direction == old(direction)
    {
      BuildInitialSnake();
      if input.restart {
        score := 0;
        state := Running;
        direction := Up;
      }
    }

    /** One pass of the main loop: the frame function of the current state. */
    method Frame(input: Input, randomX: int, randomY: int)
      requires Valid()
      requires BlockSize <= randomX <= BorderWidth && BlockSize <= randomY <= BorderHeight
      requires state == Running ==>
        MealScanEnds(Advance(body, UpdateDirection(direction, input)),
          UpdateDirection(direction, input), apple, randomX, randomY)
      modifies this
      ensures Valid()
      ensures old(state) == Running ==>
        direction == UpdateDirection(old(direction), input) &&
        head == Step(old(head), direction) && body[0] == head &&
        (var moved := Advance(old(body), direction);
         if moved[0] == old(apple) then
           body == moved + [Step(Last(moved), direction)] &&
           score == old(score) + Reward &&
           FirstFreeOnPath(body, Pos(SnapToGrid(randomX), SnapToGrid(randomY)), apple) &&
           !Occupies(body, apple)
         else
           body == moved && score == old(score) && apple == old(apple)) &&
        state == (if input.pause then Paused
                  else if HeadHitsBody(body) || IsTouchingBorders(body[0].x, body[0].y) == 1 then GameOver
                  else Running)
      ensures old(state) == Paused ==>
        body == old(body) && head == old(head) && direction == old(direction) &&
        score == old(score) && apple == old(apple) &&
        state == (if input.pause then Running else Paused)
      ensures old(state) == GameOver ==>
        body == InitialBody() && head == body[0] && apple == old(apple) &&
        (if input.restart then score == 0 && state == Running && direction == Up
         else score == old(score) && state == GameOver && direction == old(direction))
    {
      match state
      case Running => GamePlay(input, randomX, randomY);
      case Paused => PauseFrame(input);
      case GameOver => GameOverFrame(input);
    }
  }

  /** The apple of the setup is placed before the snake exists, so a draw
      that lands on the start cells leaves the apple under the snake. */
  lemma InitialAppleMayLieOnSnake()
    ensures Occupies(InitialBody(), Pos(SnapToGrid(395), SnapToGrid(277)))
  {
    assert InitialBody()[0] == Pos(SnapToGrid(395), SnapToGrid(277));
  }

  /** The first frame of a new game with no key held: the snake moves up
      one cell and keeps running. */
  method FirstFrameMovesUp()
  {
    var g := new Game(395, 277);
    ShortSnakeMealScanEnds(Advance(g.body, Up), Up, g.apple, 10, 10);
    g.Frame(Input(false, false, false, false, false, false), 10, 10);
    assert g.body[0] == Pos(390, 260);
    assert g.state == Running;
  }
}
