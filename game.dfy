/**
 * One frame of the game as a function of the state: input handling (moves and
 * rotation with wall-kick), then gravity, which either drops the piece or locks it,
 * clears lines and brings in the next piece.
 */
module Game {
  import opened Catalog
  import opened Pieces
  import opened Board

  datatype Option<T> = None | Some(value: T)

  /** An input event: the quit request, one of the four arrow keys, or anything else. */
  datatype Event = Quit | Left | Right | Down | Up | Other

  /** What one frame consumes: its events and the two draws for a piece spawned in it. */
  datatype Frame = Frame(events: seq<Event>, shapeChoice: Choice, colorChoice: Choice)

  datatype State = State(grid: Grid, current: Piece, next: Piece, score: nat, gameOver: bool)

  /** A piece the game can hold: a catalog shape or a turn of one, a palette colour, y >= 0. */
  predicate IsPiece(p: Piece) {
    IsShape(p.shape) && HasCell(p.shape) && 1 <= p.color <= COLOR_COUNT && p.y >= 0
  }

  /** While the game runs, the current piece sits at a legal position. */
  predicate Inv(s: State) {
    IsGrid(s.grid) && IsColoured(s.grid) && IsPiece(s.current) && IsPiece(s.next) &&
    (!s.gameOver ==> Legal(s.grid, s.current, 0, 0))
  }

  function Initial(first: Choice, firstColor: Choice, second: Choice, secondColor: Choice): State {
    State(EmptyGrid(), NewPiece(first, firstColor), NewPiece(second, secondColor), 0, false)
  }

  /** A new game starts in a state that satisfies the invariant. */
  lemma InitialInv(first: Choice, firstColor: Choice, second: Choice, secondColor: Choice)
    ensures Inv(Initial(first, firstColor, second, secondColor))
    ensures !Initial(first, firstColor, second, secondColor).gameOver
  {
    CatalogShapes(first);
    CatalogShapes(second);
    SpawnLegal(first, firstColor);
  }

  // ---------------------------------------------------------------------------
  // Rotation with wall-kick

  /** The first offset d in lo, lo+1, ..., hi at which q shifted by (d, 0) is legal. */
  function FirstKick(g: Grid, q: Piece, lo: int, hi: int): (r: Option<int>)
    requires IsGrid(g)
    ensures r.Some? ==> lo <= r.value <= hi && Legal(g, q, r.value, 0)
    decreases hi - lo + 1
  {
    if lo > hi then None
    else if Legal(g, q, lo, 0) then Some(lo)
    else FirstKick(g, q, lo + 1, hi)
  }

  /** FirstKick finds the least legal offset of the range, or reports that there is none. */
  lemma {:induction false} FirstKickSpec(g: Grid, q: Piece, lo: int, hi: int)
    requires IsGrid(g)
    decreases hi - lo + 1
    ensures match FirstKick(g, q, lo, hi)
      case Some(d) =>
        lo <= d <= hi && Legal(g, q, d, 0) && forall e :: lo <= e < d ==> !Legal(g, q, e, 0)
      case None =>
        forall e :: lo <= e <= hi ==> !Legal(g, q, e, 0)
  {
    if lo <= hi && !Legal(g, q, lo, 0) {
      FirstKickSpec(g, q, lo + 1, hi);
    }
  }

  /**
   * The piece after a rotate request: the turned shape where it stands if that is
   * legal, else the outcome of the wall-kick search.
   */
  function RotateOutcome(g: Grid, p: Piece): Piece
    requires IsGrid(g) && IsShape(p.shape)
  {
    var turned := p.(shape := Rotate(p.shape));
    if Legal(g, turned, 0, 0) then turned else Kick(g, turned, p)
  }

  /**
   * The wall-kick search for the turned piece: at the first legal x offset among
   * -w..w (w the turned width), else the original piece restored.
   */
  function Kick(g: Grid, turned: Piece, original: Piece): Piece
    requires IsGrid(g) && |turned.shape| > 0
  {
    var w: int := Width(turned.shape);
    match FirstKick(g, turned, -w, w)
    case Some(d) => turned.(x := turned.x + d)
    case None => original
  }

  /**
   * The search ends in one of two states: the turned piece moved by the least
   * legal offset d of -w..w, or the original piece when no offset is legal.
   */
  lemma KickCases(g: Grid, turned: Piece, original: Piece)
    requires IsGrid(g) && |turned.shape| > 0
    ensures var q := Kick(g, turned, original);
      var w: int := Width(turned.shape);
      var d := q.x - turned.x;
      (q == turned.(x := q.x) && Legal(g, q, 0, 0) &&
       -w <= d <= w && forall e :: -w <= e < d ==> !Legal(g, turned, e, 0)) ||
      (q == original && forall e :: -w <= e <= w ==> !Legal(g, turned, e, 0))
  {
    var w: int := Width(turned.shape);
    FirstKickSpec(g, turned, -w, w);
    match FirstKick(g, turned, -w, w)
    case Some(d) => LegalShift(g, turned, d);
    case None =>
  }

  /**
   * Rotation ends in one of two states, y unchanged in both: the turned shape at a
   * legal x = p.x + d, d being 0 or else the first legal offset of -w..w; or the
   * original shape and x, when no offset is legal.
   */
  lemma RotateOutcomeCases(g: Grid, p: Piece)
    requires IsGrid(g) && IsShape(p.shape)
    ensures var q := RotateOutcome(g, p);
      var turned := p.(shape := Rotate(p.shape));
      var w: int := Width(turned.shape);
      var d := q.x - p.x;
      (q == turned.(x := q.x) && Legal(g, q, 0, 0) &&
       (d == 0 || (!Legal(g, turned, 0, 0) && -w <= d <= w &&
                   forall e :: -w <= e < d ==> !Legal(g, turned, e, 0)))) ||
      (q == p && !Legal(g, turned, 0, 0) && forall e :: -w <= e <= w ==> !Legal(g, turned, e, 0))
  {
    var turned := p.(shape := Rotate(p.shape));
    KickCases(g, turned, p);
  }

  /** The search returns the least legal offset: the converse of FirstKickSpec. */
  lemma {:induction false} FirstKickLeast(g: Grid, q: Piece, lo: int, hi: int, found: Option<int>)
    requires IsGrid(g)
    requires match found
      case Some(d) => lo <= d <= hi && Legal(g, q, d, 0) && forall e :: lo <= e < d ==> !Legal(g, q, e, 0)
      case None => forall e :: lo <= e <= hi ==> !Legal(g, q, e, 0)
    decreases hi - lo + 1
    ensures FirstKick(g, q, lo, hi) == found
  {
    if lo <= hi && !Legal(g, q, lo, 0) {
      FirstKickLeast(g, q, lo + 1, hi, found);
    }
  }

  /** Rotation keeps a legal piece legal and keeps it a piece the game can hold. */
  lemma RotateOutcomeLegal(g: Grid, p: Piece)
    requires IsGrid(g) && IsPiece(p) && Legal(g, p, 0, 0)
    ensures IsPiece(RotateOutcome(g, p)) && Legal(g, RotateOutcome(g, p), 0, 0)
  {
    RotateOutcomeCases(g, p);
    RotateHasCell(p.shape);
  }

  // ---------------------------------------------------------------------------
  // Input

  /** One event: quit raises the flag; a move happens only where it is legal. */
  function HandleEvent(s: State, e: Event): (t: State)
    requires IsGrid(s.grid) && IsShape(s.current.shape)
    ensures t.grid == s.grid && t.next == s.next && t.score == s.score
    ensures t.gameOver == (s.gameOver || e == Quit)
  {
    var p := s.current;
    match e
    case Quit => s.(gameOver := true)
    case Left => if Legal(s.grid, p, -1, 0) then s.(current := p.(x := p.x - 1)) else s
    case Right => if Legal(s.grid, p, 1, 0) then s.(current := p.(x := p.x + 1)) else s
    case Down => if Legal(s.grid, p, 0, 1) then s.(current := p.(y := p.y + 1)) else s
    case Up => s.(current := RotateOutcome(s.grid, p))
    case Other => s
  }

  /**
   * An event changes only the current piece and the flag, keeps a legal piece legal,
   * and raises the flag exactly on quit.
   */
  lemma HandleEventSpec(s: State, e: Event)
    requires IsGrid(s.grid) && IsPiece(s.current) && Legal(s.grid, s.current, 0, 0)
    ensures var t := HandleEvent(s, e);
      t.grid == s.grid && t.next == s.next && t.score == s.score &&
      t.gameOver == (s.gameOver || e == Quit) &&
      IsPiece(t.current) && Legal(t.grid, t.current, 0, 0)
  {
    var p := s.current;
    match e
    case Left => LegalShift(s.grid, p, -1);
    case Right => LegalShift(s.grid, p, 1);
    case Down =>
      LegalDrop(s.grid, p);
    case Up => RotateOutcomeLegal(s.grid, p);
    case Quit =>
    case Other =>
  }

  /** All events of a frame, in arrival order. */
  function AfterInput(s: State, events: seq<Event>): (t: State)
    requires IsGrid(s.grid) && IsShape(s.current.shape)
    ensures t.grid == s.grid && t.next == s.next && t.score == s.score && IsShape(t.current.shape)
    decreases |events|
  {
    if events == [] then s
    else
      var s1 := HandleEvent(s, events[0]);
      assert IsShape(s1.current.shape) by {
        if events[0] == Up { RotateOutcomeCases(s.grid, s.current); }
      }
      AfterInput(s1, events[1..])
  }

  /**
   * Input keeps the current piece legal and changes neither the board, the next
   * piece nor the score; the flag is raised exactly when a quit arrived.
   */
  lemma {:induction false} AfterInputSpec(s: State, events: seq<Event>)
    requires IsGrid(s.grid) && IsPiece(s.current) && Legal(s.grid, s.current, 0, 0)
    decreases |events|
    ensures var t := AfterInput(s, events);
      t.grid == s.grid && t.next == s.next && t.score == s.score &&
      t.gameOver == (s.gameOver || Quit in events) &&
      IsPiece(t.current) && Legal(t.grid, t.current, 0, 0)
  {
    if events != [] {
      HandleEventSpec(s, events[0]);
      AfterInputSpec(HandleEvent(s, events[0]), events[1..]);
      assert Quit in events <==> events[0] == Quit || Quit in events[1..] by {
        assert events == [events[0]] + events[1..];
      }
    }
  }

  // ---------------------------------------------------------------------------
  // Gravity and the frame

  /** Gravity: drop one row if that is legal, otherwise lock the piece. */
  function Gravity(s: State, shapeChoice: Choice, colorChoice: Choice): (t: State)
    requires IsGrid(s.grid)
    ensures t.score >= s.score
  {
    var p := s.current;
    if Legal(s.grid, p, 0, 1) then s.(current := p.(y := p.y + 1)) else Lock(s, shapeChoice, colorChoice)
  }

  /**
   * Locking: merge the piece into the board, clear lines, score them, promote the
   * next piece, draw a new one, and end the game if the promoted piece is not
   * legal where it stands.
   */
  function Lock(s: State, shapeChoice: Choice, colorChoice: Choice): (t: State)
    requires IsGrid(s.grid)
    ensures t.score == s.score + CountFull(Merged(s.grid, s.current))
    ensures t.current == s.next && t.next == NewPiece(shapeChoice, colorChoice)
  {
    var res := ClearLines(Merged(s.grid, s.current));
    State(res.grid, s.next, NewPiece(shapeChoice, colorChoice), s.score + res.cleared,
          s.gameOver || !Legal(res.grid, s.next, 0, 0))
  }

  /** The body of the game loop, run while the game is not over. */
  function StepState(s: State, f: Frame): (t: State)
    requires IsGrid(s.grid) && IsShape(s.current.shape)
    ensures t.score >= s.score
  {
    Gravity(AfterInput(s, f.events), f.shapeChoice, f.colorChoice)
  }

  /**
   * A frame keeps the invariant and never lowers the score. When the piece can
   * fall it drops one row and nothing else changes but the flag (raised by a
   * quit). When it cannot, the board becomes the merged-and-cleared board, the
   * score grows by the number of full rows, the next piece becomes current, and
   * the game is over exactly when a quit arrived or that piece is not legal.
   */
  lemma StepSpec(s: State, f: Frame)
    requires Inv(s) && !s.gameOver
    ensures var t := StepState(s, f);
      var a := AfterInput(s, f.events);
      Inv(t) && t.score >= s.score &&
      (Legal(s.grid, a.current, 0, 1) ==>
        t.grid == s.grid && t.current == a.current.(y := a.current.y + 1) && t.next == s.next &&
        t.score == s.score && t.gameOver == (Quit in f.events)) &&
      (!Legal(s.grid, a.current, 0, 1) ==>
        t.grid == ClearLines(Merged(s.grid, a.current)).grid &&
        t.score == s.score + CountFull(Merged(s.grid, a.current)) &&
        t.current == s.next && t.next == NewPiece(f.shapeChoice, f.colorChoice) &&
        t.gameOver == (Quit in f.events || !Legal(t.grid, t.current, 0, 0)))
  {
    var a := AfterInput(s, f.events);
    AfterInputSpec(s, f.events);
    var p := a.current;
    if Legal(s.grid, p, 0, 1) {
      LegalDrop(s.grid, p);
    } else {
      var m := Merged(s.grid, p);
      MergedColoured(s.grid, p);
      ClearLinesColoured(m);
      CatalogShapes(f.shapeChoice);
    }
  }

  /** The loop: frames run until the game is over or the frames run out. */
  function RunFrames(s: State, frames: seq<Frame>): (t: State)
    requires Inv(s)
    ensures Inv(t) && t.score >= s.score
    ensures s.gameOver ==> t == s
    decreases |frames|
  {
    if s.gameOver || frames == [] then s
    else
      StepSpec(s, frames[0]);
      RunFrames(StepState(s, frames[0]), frames[1..])
  }
}
