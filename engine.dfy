/** The game session (the globals of script.js): the field, the falling
    piece, the upcoming queue, the hold slot, score and level, the gravity
    counter, the phase flags and the key tables, with the actions that change
    them. Rendering, sound, particles and host scheduling are not modelled. */
module Engine {
  import opened Pieces
  import opened Rotation
  import opened Field
  import opened Sweep
  import opened Scoring
  import opened Keys

  datatype Option<T> = None | Some(value: T)

  /** The spawn column, `(12 / 2 | 0) - (n / 2 | 0)` for an n-wide piece. */
  function SpawnX(n: nat): int {
    Width / 2 - n / 2
  }

  /** How far the k-th kick attempt of `playerRotate` moves the piece from
      where it was: 0, +1, -1, +2, -2, ... */
  function Kick(k: nat): int {
    if k % 2 == 1 then (k + 1) / 2 else -(k / 2)
  }

  /** How many positions the kick search tries for an n-wide matrix before
      the growing offset, counted with its sign, exceeds n: n rounded up to
      an even number. */
  function KickTries(n: nat): nat {
    if n % 2 == 0 then n else n + 1
  }

  /** A catalog piece is a tetromino of its colour, two to four cells wide,
      and at the spawn position it lies inside any 12-by-20 field. */
  lemma SpawnFits(a: Matrix, t: Piece)
    requires WellFormed(a)
    ensures PieceShape(PieceMatrix(t), Color(t))
    ensures 2 <= |PieceMatrix(t)| <= 4 && |PieceMatrix(t)[0]| == |PieceMatrix(t)|
    ensures InBounds(a, PieceMatrix(t), SpawnX(|PieceMatrix(t)|), 0)
  {
    CatalogIsTetromino(t);
  }

  /** `arena.forEach(row => row.fill(0))`: every row zeroed in place,
      keeping its length. */
  method ClearRows(a: Matrix) returns (b: Matrix)
    ensures |b| == |a|
    ensures forall r :: 0 <= r < |a| ==> |b[r]| == |a[r]|
    ensures Empty(b)
  {
    b := a;
    for r := 0 to |b|
      invariant |b| == |a|
      invariant forall r' :: 0 <= r' < |a| ==> |b[r']| == |a[r']|
      invariant forall r', c :: 0 <= r' < r && 0 <= c < |b[r']| ==> b[r'][c] == 0
    {
      b := b[r := Zeros(|b[r]|)];
    }
  }

  /** On an empty field a freshly spawned piece never collides, so a
      restart cannot end the game at once. */
  lemma SpawnClearOnEmpty(a: Matrix)
    requires WellFormed(a)
    requires Empty(a)
    ensures forall t: Piece :: !Collides(a, PieceMatrix(t), SpawnX(|PieceMatrix(t)|), 0)
  {
    forall t: Piece ensures !Collides(a, PieceMatrix(t), SpawnX(|PieceMatrix(t)|), 0) {
      SpawnFits(a, t);
    }
  }

  /** Once a piece exists it is a tetromino of its type's colour, two to
      four cells wide, lying inside the field. */
  ghost predicate PieceInField(a: Matrix, m: Matrix, x: int, y: int, kind: Option<Piece>) {
    kind.Some? ==> PieceShape(m, Color(kind.value)) && 2 <= |m| <= 4 && InBounds(a, m, x, y)
  }

  /** The piece stays valid when it, or the field under it, changes place
      without leaving the field. */
  lemma PieceMoved(a: Matrix, b: Matrix, m: Matrix, x: int, y: int, x': int, y': int, kind: Option<Piece>)
    requires PieceInField(a, m, x, y, kind)
    requires InBounds(b, m, x', y')
    ensures PieceInField(b, m, x', y', kind)
  {
  }

  /** A turned piece placed clear of the field is still a piece inside it. */
  lemma TurnedInField(a: Matrix, m: Matrix, x: int, y: int, kind: Option<Piece>, dir: int, nx: int)
    requires PieceInField(a, m, x, y, kind) && kind.Some?
    requires !Collides(a, Rotated(m, dir), nx, y)
    ensures PieceInField(a, Rotated(m, dir), nx, y, kind)
  {
    RotationKeepsPiece(m, Color(kind.value), dir);
    NoCollisionInBounds(a, Rotated(m, dir), nx, y);
  }

  /** Emptying the field keeps its shape and the piece inside it, and
      leaves no spawn position blocked. */
  lemma EmptiedField(a: Matrix, b: Matrix, m: Matrix, x: int, y: int, kind: Option<Piece>)
    requires WellFormed(a) && PieceInField(a, m, x, y, kind)
    requires |b| == |a| && forall r :: 0 <= r < |a| ==> |b[r]| == |a[r]|
    requires Empty(b)
    ensures WellFormed(b) && PieceInField(b, m, x, y, kind)
  {
    if kind.Some? {
      InBoundsSameShape(a, b, m, x, y);
    }
  }

  /** The kick search of `playerRotate`, from attempt k on: the first
      attempt below `tries` whose column, `x0 + Kick(k)`, leaves the turned
      piece clear of the field, if any. */
  ghost function KickSearch(a: Matrix, m: Matrix, x0: int, y: int, k: nat, tries: nat): Option<nat>
    decreases tries - k
  {
    if k >= tries then None
    else if !Collides(a, m, x0 + Kick(k), y) then Some(k)
    else KickSearch(a, m, x0, y, k + 1, tries)
  }

  /** The search finds the first clear attempt, every attempt before it
      being blocked; it finds none only when every attempt is blocked. */
  lemma {:induction false} KickSearchFirstClear(a: Matrix, m: Matrix, x0: int, y: int, k: nat, tries: nat)
    ensures KickSearch(a, m, x0, y, k, tries).Some? ==>
      var j := KickSearch(a, m, x0, y, k, tries).value;
      && k <= j < tries
      && !Collides(a, m, x0 + Kick(j), y)
      && forall i :: k <= i < j ==> Collides(a, m, x0 + Kick(i), y)
    ensures KickSearch(a, m, x0, y, k, tries).None? ==>
      forall i :: k <= i < tries ==> Collides(a, m, x0 + Kick(i), y)
    decreases tries - k
  {
    if k < tries && Collides(a, m, x0 + Kick(k), y) {
      KickSearchFirstClear(a, m, x0, y, k + 1, tries);
    }
  }

  /** The attempts move the piece 0, +1, -1, +2, -2, ... columns: each
      offset up to half the number of tries is tried exactly once. */
  lemma KickEnumerates(k1: nat, k2: nat, d: int)
    ensures Kick(k1) == Kick(k2) ==> k1 == k2
    ensures Kick(if d > 0 then 2 * d - 1 else -2 * d) == d
  {
  }

  /** The kick loop of `playerRotate` for a turned matrix `m` that was at
      column `pos`: while the piece collides it moves by the next offset
      (+1, -2, +3, -4, ...), and gives up once that offset, counted with its
      sign, exceeds the matrix width. Reports whether a clear column was
      found, and which. */
  method KickColumn(a: Matrix, m: Matrix, pos: int, y: int) returns (clear: bool, nx: int)
    requires IsSquare(m) && |m| >= 1
    ensures var found := KickSearch(a, m, pos, y, 0, KickTries(|m|));
      && (clear <==> found.Some?)
      && (clear ==> nx == pos + Kick(found.value))
    ensures clear ==> !Collides(a, m, nx, y)
  {
    var n := |m|;
    var offset := 1;
    ghost var k: nat := 0;
    nx := pos;
    var hit := Collide(a, m, nx, y);
    while hit
      invariant k < KickTries(n) && nx == pos + Kick(k)
      invariant offset == if k % 2 == 0 then k + 1 else -(k + 1)
      invariant hit <==> Collides(a, m, nx, y)
      invariant KickSearch(a, m, pos, y, k, KickTries(n)) == KickSearch(a, m, pos, y, 0, KickTries(n))
      decreases KickTries(n) - k
    {
      nx := nx + offset;
      offset := -(offset + (if offset > 0 then 1 else -1));
      k := k + 1;
      if offset > |m[0]| {
        assert k == KickTries(n);
        return false, nx;
      }
      hit := Collide(a, m, nx, y);
    }
    clear := true;
  }

  /** The loop of `playerHardDrop`: from row `y`, moves down while the piece
      does not collide, then steps back one row. */
  method DropTarget(a: Matrix, m: Matrix, x: int, y: int) returns (row: int)
    requires Occupied(m) != {}
    ensures row == DropRow(a, m, x, y)
  {
    row := y;
    var hit := Collide(a, m, x, row);
    while !hit
      invariant y <= row
      invariant hit <==> Collides(a, m, x, row)
      invariant DropRow(a, m, x, row) == DropRow(a, m, x, y)
      decreases |a| - row
    {
      if row >= |a| {
        BelowFieldCollides(a, m, x, row);
      }
      row := row + 1;
      hit := Collide(a, m, x, row);
    }
    row := row - 1;
  }

  /** `merge`: writes the piece's non-zero cells into the field `a`, row by
      row, giving the field `b`. A non-zero cell above row 0 makes the
      script index a row that does not exist and throw (`thrown`); that
      happens at the first non-zero cell, before anything is written. */
  method MergeCells(a: Matrix, m: Matrix, x: int, y: int) returns (thrown: bool, b: Matrix)
    requires WellFormed(a) && Fits(m, x, y)
    ensures WellFormed(b)
    ensures thrown <==> AboveField(m, y)
    ensures thrown ==> b == a
    ensures !thrown ==> b == Merged(a, m, x, y)
  {
    b := a;
    for i := 0 to |m|
      invariant WellFormed(b)
      invariant forall r, c :: 0 <= r < |b| && 0 <= c < |b[r]| ==> b[r][c] == MergedCell(a, m, x, y, r, c, i, 0)
      invariant forall i', j' :: 0 <= i' < i && 0 <= j' < |m[i']| && m[i'][j'] != 0 ==> y + i' >= 0
    {
      for j := 0 to |m[i]|
        invariant WellFormed(b)
        invariant forall r, c :: 0 <= r < |b| && 0 <= c < |b[r]| ==> b[r][c] == MergedCell(a, m, x, y, r, c, i, j)
        invariant forall j' :: 0 <= j' < j && m[i][j'] != 0 ==> y + i >= 0
      {
        if m[i][j] != 0 {
          if y + i < 0 {
            forall r | 0 <= r < |b| ensures b[r] == a[r] {
            }
            return true, b;
          }
          b := b[y + i := b[y + i][x + j := m[i][j]]];
        }
      }
    }
    forall r | 0 <= r < |b| ensures b[r] == Merged(a, m, x, y)[r] {
    }
    return false, b;
  }

  /** The field work of `playerHardDrop` on a piece inside the field:
      find the landing row and merge the piece there. */
  method DropCells(a: Matrix, m: Matrix, x: int, y: int) returns (row: int, thrown: bool, b: Matrix)
    requires WellFormed(a) && InBounds(a, m, x, y) && Occupied(m) != {}
    ensures row == DropRow(a, m, x, y) && WellFormed(b)
    ensures thrown <==> AboveField(m, row)
    ensures thrown ==> b == a
    ensures !thrown ==> b == Merged(a, m, x, row) && InBounds(a, m, x, row)
  {
    HardDropFits(a, m, x, y);
    row := DropTarget(a, m, x, y);
    thrown, b := MergeCells(a, m, x, row);
    if !thrown {
      FitsInBounds(a, m, x, row);
    }
  }

  /** `SHAPES[SHAPES.length * Math.random() | 0]`: any of the seven types. */
  method RandomPiece() returns (t: Piece)
  {
    var i :| 0 <= i < |Shapes|;
    t := Shapes[i];
  }

  /** The queue work of `playerReset` on the queue `queue`: random types are
      appended until three are queued, the front one is taken out as the
      next piece `t`, and one more random type is appended, giving `rest`. */
  method TakeNext(queue: seq<Piece>) returns (t: Piece, rest: seq<Piece>)
    ensures |rest| == (if |queue| < 3 then 3 else |queue|)
    ensures |queue| > 0 ==> t == queue[0] && rest[..|queue| - 1] == queue[1..]
  {
    var q := queue;
    while |q| < 3
      invariant |queue| <= |q| <= (if |queue| < 3 then 3 else |queue|)
      invariant q[..|queue|] == queue
    {
      var p := RandomPiece();
      q := q + [p];
    }
    t := q[0];
    var more := RandomPiece();
    rest := q[1..] + [more];
    assert |queue| > 0 ==> rest[..|queue| - 1] == queue[1..] by {
      if |queue| > 0 {
        assert rest[..|queue| - 1] == q[1..|queue|];
        assert queue[1..] == q[..|queue|][1..];
      }
    }
  }

  /** The play state one action can change: the field, the falling piece
      (matrix, position, type), the queue, the score, the game-over flag and
      whether holding is allowed. */
  datatype Play = Play(arena: Matrix, matrix: Matrix, x: int, y: int, kind: Option<Piece>,
                       queue: seq<Piece>, score: nat, over: bool, canHold: bool)

  /** The play state after `playerMove(dir)` from `s`. */
  ghost function Shifted(s: Play, dir: int): Play {
    if Collides(s.arena, s.matrix, s.x + dir, s.y) then s else s.(x := s.x + dir)
  }

  /** The play state after the Left and Right parts of `handleInput`, each
      applied when it fired. */
  ghost function AfterMoves(s: Play, left: bool, right: bool): Play {
    var s1 := if left then Shifted(s, -1) else s;
    if right then Shifted(s1, 1) else s1
  }

  /** The row the hard drop from `s` lands on. */
  ghost function Landing(s: Play): int {
    DropRow(s.arena, s.matrix, s.x, s.y)
  }

  /** The piece (`kind`, `m` at (x, y)), the queue `next` and the flag
      `over` are those of a spawn from `queue` onto `field`: the old front of
      the queue, fresh, at row 0 and the spawn column; the queue lost its
      front and was topped up to at least three; the game is over iff it
      already was or the new piece collides on `field`. */
  ghost predicate SpawnedAs(queue: seq<Piece>, field: Matrix, wasOver: bool,
                            next: seq<Piece>, kind: Option<Piece>, m: Matrix, x: int, y: int, over: bool)
  {
    && |next| == (if |queue| < 3 then 3 else |queue|)
    && kind.Some?
    && (|queue| > 0 ==> kind.value == queue[0] && next[..|queue| - 1] == queue[1..])
    && m == PieceMatrix(kind.value)
    && y == 0 && x == SpawnX(|m|)
    && (over <==> wasOver || Collides(field, m, x, y))
  }

  /** After a lock onto the field `merged`, `t` is the state once the next
      piece spawned onto `merged` (before any row is cleared) and then the
      sweep ran on it and its points were added. */
  ghost predicate Settled(t: Play, merged: Matrix, queue: seq<Piece>, score0: nat, wasOver: bool) {
    && SpawnedAs(queue, merged, wasOver, t.queue, t.kind, t.matrix, t.x, t.y, t.over)
    && t.arena == Swept(merged)
    && t.score == score0 + SweepPoints(Cleared(merged))
  }

  /** `t` follows from `s` by locking its piece at row `y0`: merge, spawn,
      sweep, and holding allowed again. */
  ghost predicate Locks(s: Play, y0: int, t: Play) {
    Settled(t, Merged(s.arena, s.matrix, s.x, y0), s.queue, s.score, s.over) && t.canHold
  }

  /** `playerDrop` takes `s` to `t`: the piece is locked where it was if the
      row below is blocked, otherwise it is one row lower and nothing else
      changed. */
  ghost predicate Drop(s: Play, t: Play) {
    if Collides(s.arena, s.matrix, s.x, s.y + 1) then Locks(s, s.y, t) else t == s.(y := s.y + 1)
  }

  /** `playerHardDrop` takes `s` to `t`: the merge throws iff a cell of the
      piece is above the field at the landing row, and then only the row
      has changed; otherwise the piece is locked there. */
  ghost predicate HardDrop(s: Play, t: Play, thrown: bool) {
    && (thrown <==> AboveField(s.matrix, Landing(s)))
    && if thrown then t == s.(y := Landing(s)) else Locks(s, Landing(s), t)
  }

  /** `playerRotate(dir)` takes `s` to `t`: the turned piece at the first
      clear kick position, or, when every attempt is blocked, the state as
      it was. */
  ghost predicate Turn(s: Play, t: Play, dir: int) {
    IsSquare(s.matrix) &&
    var turned := Rotated(s.matrix, dir);
    match KickSearch(s.arena, turned, s.x, s.y, 0, KickTries(|turned|))
    case Some(k) => t == s.(matrix := turned, x := s.x + Kick(k))
    case None => t == s
  }

  /** `playerHold` in a running game takes `s`, with `hold0` in the slot,
      to `t` with `hold1`: nothing when holding is barred; otherwise the
      current type is held, holding is barred, and either the next piece
      spawns (empty slot) or the held type comes back at the spawn
      position. */
  ghost predicate Hold(s: Play, t: Play, hold0: Option<Piece>, hold1: Option<Piece>) {
    if !s.canHold then t == s && hold1 == hold0
    else
      && hold1 == s.kind && !t.canHold && t.arena == s.arena && t.score == s.score
      && (hold0.None? ==> SpawnedAs(s.queue, s.arena, s.over, t.queue, t.kind, t.matrix, t.x, t.y, t.over))
      && (hold0.Some? ==>
            var m := PieceMatrix(hold0.value);
            t == s.(kind := hold0, matrix := m, x := SpawnX(|m|), y := 0, canHold := false))
  }

  /** What a fresh press of `code` does in a running game, from `s` with
      `hold0` in the slot and the gravity counter at `counter0` to `t` with
      `hold1` and `counter1`: Q turns the piece counter-clockwise, W or Up
      clockwise, Space hard-drops it (restarting the counter unless the
      merge throws), Shift or C holds it; any other key leaves the game as
      it was. Only a hard drop can throw. */
  ghost predicate Pressed(s: Play, t: Play, hold0: Option<Piece>, hold1: Option<Piece>,
                          counter0: int, counter1: int, code: int, thrown: bool)
  {
    if code == KeySpace then
      HardDrop(s, t, thrown) && hold1 == hold0 && counter1 == if thrown then counter0 else 0
    else
      && !thrown && counter1 == counter0
      && if code == KeyQ then Turn(s, t, -1) && hold1 == hold0
         else if code == KeyW || code == KeyUp then Turn(s, t, 1) && hold1 == hold0
         else if code == KeyShift || code == KeyC then Hold(s, t, hold0, hold1)
         else t == s && hold1 == hold0
  }

  /** From `s` to `t` the score did not fall; without a lock (`locked`
      false) only the piece's position changed, and after a lock holding
      is allowed. */
  ghost predicate Progress(s: Play, t: Play, locked: bool) {
    && t.score >= s.score
    && (!locked ==> t == s.(x := t.x, y := t.y))
    && (locked ==> t.canHold)
  }

  /** Moves are progress without a lock. */
  lemma MovesProgress(s: Play, left: bool, right: bool)
    ensures Progress(s, AfterMoves(s, left, right), false)
  {
  }

  /** A soft drop is progress, with a lock iff the row below was blocked. */
  lemma DropProgress(s: Play, t: Play)
    requires Drop(s, t)
    ensures Progress(s, t, Collides(s.arena, s.matrix, s.x, s.y + 1))
  {
  }

  /** One frame on play states: an optional gravity drop from `s0` to `s1`,
      then two optional moves and an optional soft drop from `s1` to `s2`.
      The frame is progress, with a lock iff either drop locked. */
  lemma FrameProgress(s0: Play, s1: Play, s2: Play, dropped: bool, left: bool, right: bool, down: bool)
    returns (locked: bool)
    requires if dropped then Drop(s0, s1) else s1 == s0
    requires var m := AfterMoves(s1, left, right); if down then Drop(m, s2) else s2 == m
    ensures var m := AfterMoves(s1, left, right);
      locked == ((dropped && Collides(s0.arena, s0.matrix, s0.x, s0.y + 1))
                 || (down && Collides(m.arena, m.matrix, m.x, m.y + 1)))
    ensures Progress(s0, s2, locked)
  {
    var m := AfterMoves(s1, left, right);
    locked := (dropped && Collides(s0.arena, s0.matrix, s0.x, s0.y + 1))
      || (down && Collides(m.arena, m.matrix, m.x, m.y + 1));
    if dropped {
      DropProgress(s0, s1);
    }
    MovesProgress(s1, left, right);
    if down {
      DropProgress(m, s2);
    }
    ProgressChains(s1, m, s2, false, down && Collides(m.arena, m.matrix, m.x, m.y + 1));
    ProgressChains(s0, s1, s2, dropped && Collides(s0.arena, s0.matrix, s0.x, s0.y + 1),
                   down && Collides(m.arena, m.matrix, m.x, m.y + 1));
  }

  /** Progress composes: a lock in either part is a lock of the whole. */
  lemma ProgressChains(s: Play, t: Play, u: Play, l1: bool, l2: bool)
    requires Progress(s, t, l1) && Progress(t, u, l2)
    ensures Progress(s, u, l1 || l2)
  {
  }

  class Game {
    var arena: Matrix
    var x: int
    var y: int
    var matrix: Matrix
    var score: nat
    /** `player.type`: the falling piece's type, none before the first spawn. */
    var kind: Option<Piece>
    var hold: Option<Piece>
    var canHold: bool
    var nextPieces: seq<Piece>
    var dropCounter: int
    var dropInterval: int
    var lastTime: int
    var lastLevel: nat
    var isGameStarted: bool
    var isPaused: bool
    var isGameOver: bool
    var keyState: map<int, bool>
    var keyTimers: map<int, int>

    /** The state invariant apart from the phase: a 12-by-20 field; the
        level and speed agree with the score; once a piece exists it is a
        tetromino of its type's colour that lies inside the field. */
    ghost predicate Sound()
      reads this`arena, this`score, this`lastLevel, this`dropInterval, this`kind, this`matrix, this`x, this`y
    {
      && WellFormed(arena)
      && lastLevel == Level(score)
      && dropInterval == DropInterval(lastLevel)
      && PieceInField(arena, matrix, x, y, kind)
    }

    /** The session invariant: sound, and a piece exists once the game has
        started. */
    ghost predicate Valid()
      reads this`arena, this`score, this`lastLevel, this`dropInterval, this`kind, this`matrix, this`x, this`y,
        this`isGameStarted
    {
      Sound() && (isGameStarted ==> kind.Some?)
    }

    /** The current play state. */
    ghost function Snapshot(): Play
      reads this`arena, this`matrix, this`x, this`y, this`kind, this`nextPieces, this`score, this`isGameOver,
        this`canHold
    {
      Play(arena, matrix, x, y, kind, nextPieces, score, isGameOver, canHold)
    }

    /** The state when the script has loaded: an empty 12-by-20 field, no
        piece, nothing queued or held, level 1 at 1000 ms, no phase flag set
        and no key down. */
    constructor ()
      ensures Valid()
      ensures Empty(arena)
      ensures x == 0 && y == 0 && matrix == [] && kind == None && hold == None
      ensures score == 0 && canHold && nextPieces == []
      ensures dropCounter == 0 && dropInterval == 1000 && lastTime == 0 && lastLevel == 1
      ensures !isGameStarted && !isPaused && !isGameOver
      ensures keyState == map[] && keyTimers == map[]
    {
      var field := CreateMatrix(Width, Height);
      arena := field;
      x, y := 0, 0;
      matrix := [];
      score := 0;
      kind, hold := None, None;
      canHold := true;
      nextPieces := [];
      dropCounter, dropInterval, lastTime, lastLevel := 0, 1000, 0, 1;
      isGameStarted, isPaused, isGameOver := false, false, false;
      keyState, keyTimers := map[], map[];
    }

    /** `gameOver`: raises the game-over flag. */
    method GameOver()
      modifies this`isGameOver
      ensures isGameOver
    {
      isGameOver := true;
    }

    /** `playerReset`: tops the queue up to three random types, takes its
        front as the new piece at the spawn position, appends one more random
        type, and ends the game if the new piece collides. */
    method PlayerReset()
      requires Sound()
      modifies this`nextPieces, this`kind, this`matrix, this`x, this`y, this`isGameOver
      ensures Sound()
      ensures SpawnedAs(old(nextPieces), arena, old(isGameOver), nextPieces, kind, matrix, x, y, isGameOver)
    {
      var t, rest := TakeNext(nextPieces);
      SpawnFits(arena, t);
      var m := PieceMatrix(t);
      var px := SpawnX(|m[0]|);
      var hit := Collide(arena, m, px, 0);
      nextPieces, kind, matrix, y, x := rest, Some(t), m, 0, px;
      if hit {
        GameOver();
      }
    }

    /** The scan of `arenaSweep`: looks at the rows from the bottom up to
        row 1; a full row is cut out, blanked and put back on top, and the
        same index is looked at again; each removal is worth 10 points,
        doubling within the pass. Reports whether anything was removed. */
    method SweepPass() returns (cleared: bool)
      requires WellFormed(arena)
      modifies this`arena, this`score
      ensures WellFormed(arena)
      ensures arena == Swept(old(arena))
      ensures score == old(score) + SweepPoints(Cleared(old(arena)))
      ensures cleared <==> Clears(old(arena))
    {
      var rows, points := arena, score;
      ghost var a0 := rows;
      ghost var m: nat := |a0|;
      ghost var n: nat := 0;
      var rowCount := 1;
      cleared := false;
      var y := |rows| - 1;
      PartSweptStart(a0);
      while y > 0
        invariant 0 <= y && m <= |a0| && n == FullCount(a0[m..])
        invariant rows == PartSwept(a0, m) && WellFormed(rows)
        invariant m > 0 ==> y == n + m - 1
        invariant m == 0 ==> y < n && FullCount(a0[1..]) > 0
        invariant points == old(score) + SweepPoints(n)
        invariant rowCount == Pow2(n)
        invariant cleared <==> n > 0
        decreases y + m
      {
        if m > 0 {
          PartSweptNextRow(a0, m);
        } else {
          PartSweptBlankTop(a0, y);
          assert rows[y][0] == 0;
        }
        var full := RowFull(rows[y]);
        if full {
          PartSweptCut(a0, m);
          var row := Zeros(|rows[y]|);
          rows := [row] + rows[..y] + rows[y + 1..];
          points := points + rowCount * 10;
          rowCount := rowCount * 2;
          cleared := true;
          m, n := m - 1, n + 1;
        } else {
          if m > 0 {
            PartSweptKeep(a0, m);
            m := m - 1;
          }
          y := y - 1;
        }
        PartSweptWellFormed(a0, m);
      }
      PartSweptEnd(a0);
      arena, score := rows, points;
    }

    /** `arenaSweep`: the scan, then, if anything was removed, the level and
        speed are brought up to date. */
    method ArenaSweep()
      requires Sound()
      modifies this`arena, this`score, this`lastLevel, this`dropInterval
      ensures Sound()
      ensures arena == Swept(old(arena))
      ensures score == old(score) + SweepPoints(Cleared(old(arena)))
    {
      var cleared := SweepPass();
      if cleared {
        HigherScoreFaster(old(score), score);
        var _ := UpdateScore();
      }
      if kind.Some? {
        InBoundsSameShape(old(arena), arena, matrix, x, y);
      }
    }

    /** `updateScore`: recomputes the level from the score, raises
        `lastLevel` if the level went up (reported as `levelUp`) and sets
        the gravity interval for the level. */
    method UpdateScore() returns (levelUp: bool)
      modifies this`lastLevel, this`dropInterval
      ensures levelUp <==> Level(score) > old(lastLevel)
      ensures lastLevel == if levelUp then Level(score) else old(lastLevel)
      ensures dropInterval == DropInterval(Level(score))
    {
      var level := score / LevelStep + 1;
      levelUp := level > lastLevel;
      if levelUp {
        lastLevel := level;
      }
      dropInterval := DropInterval(level);
    }

    /** `playerMove`: shifts the piece `dir` columns unless it would then
        collide, in which case it stays where it was. */
    method PlayerMove(dir: int)
      requires Valid() && kind.Some?
      modifies this`x
      ensures Valid()
      ensures x == if Collides(arena, matrix, old(x) + dir, y) then old(x) else old(x) + dir
    {
      var hit := Collide(arena, matrix, x + dir, y);
      if !hit {
        NoCollisionInBounds(arena, matrix, x + dir, y);
        x := x + dir;
      }
    }

    /** `playerRotate`: turns the piece a quarter in direction `dir`, then
        tries the columns 0, +1, -1, +2, ... away from where it was until the
        turned piece is clear; once the next offset would exceed the matrix
        width the turn is undone and the piece put back. */
    method PlayerRotate(dir: int)
      requires Valid() && kind.Some? && (dir == 1 || dir == -1)
      modifies this`matrix, this`x
      ensures Valid()
      ensures Turn(old(Snapshot()), Snapshot(), dir)
    {
      var turned := Rotate(matrix, dir);
      var clear, nx := KickColumn(arena, turned, x, y);
      if clear {
        TurnedInField(arena, matrix, x, y, kind, dir, nx);
        matrix, x := turned, nx;
      } else {
        TurnBackRestores(matrix, dir);
        matrix := Rotate(turned, -dir);
      }
    }

    /** What follows a merge: `playerReset` spawns the next piece, then
        `arenaSweep` clears the field, then holding is allowed again. */
    method SpawnAndSweep()
      requires Sound()
      modifies this`arena, this`nextPieces, this`kind, this`matrix, this`x, this`y, this`isGameOver,
        this`score, this`lastLevel, this`dropInterval, this`canHold
      ensures Sound() && kind.Some?
      ensures Settled(Snapshot(), old(arena), old(nextPieces), old(score), old(isGameOver)) && canHold
    {
      PlayerReset();
      ArenaSweep();
      canHold := true;
    }

    /** Locks the piece where it stands: merge, spawn, sweep, and allow
        holding again (the lock of `playerDrop`, also the lock of the
        gravity step of `update`). */
    method Lock()
      requires Sound() && kind.Some?
      modifies this`arena, this`nextPieces, this`kind, this`matrix, this`x, this`y, this`isGameOver,
        this`score, this`lastLevel, this`dropInterval, this`canHold
      ensures Sound() && kind.Some?
      ensures Locks(old(Snapshot()), old(y), Snapshot())
    {
      InBoundsFits(arena, matrix, x, y);
      var thrown, merged := MergeCells(arena, matrix, x, y);
      PieceMoved(arena, merged, matrix, x, y, x, y, kind);
      arena := merged;
      SpawnAndSweep();
    }

    /** `playerDrop`: moves the piece one row down; if it would collide
        there it is locked where it was instead. The gravity counter
        restarts either way. */
    method PlayerDrop()
      requires Valid() && kind.Some?
      modifies this`arena, this`nextPieces, this`kind, this`matrix, this`x, this`y, this`isGameOver,
        this`score, this`lastLevel, this`dropInterval, this`canHold, this`dropCounter
      ensures Valid() && dropCounter == 0
      ensures Drop(old(Snapshot()), Snapshot())
    {
      Fall();
      dropCounter := 0;
    }

    /** The move of `playerDrop`, before the counter restarts. */
    method Fall()
      requires Valid() && kind.Some?
      modifies this`arena, this`nextPieces, this`kind, this`matrix, this`x, this`y, this`isGameOver,
        this`score, this`lastLevel, this`dropInterval, this`canHold
      ensures Valid()
      ensures Drop(old(Snapshot()), Snapshot())
    {
      var hit := Collide(arena, matrix, x, y + 1);
      if hit {
        Lock();
      } else {
        NoCollisionInBounds(arena, matrix, x, y + 1);
        y := y + 1;
      }
    }

    /** The first half of `playerHardDrop`: moves the piece down while it
        does not collide, steps back one row and merges it there. If the
        piece already collides where it stands this puts it one row up; when
        that takes a non-zero cell above the field, `merge` throws
        (`thrown`) and nothing is written. */
    method DropAndMerge() returns (thrown: bool)
      requires Sound() && kind.Some?
      modifies this`arena, this`y
      ensures y == DropRow(old(arena), matrix, x, old(y))
      ensures thrown <==> AboveField(matrix, y)
      ensures thrown ==> arena == old(arena)
      ensures !thrown ==> arena == Merged(old(arena), matrix, x, y) && Sound()
    {
      PieceHasCells(matrix, Color(kind.value));
      var row, merged;
      row, thrown, merged := DropCells(arena, matrix, x, y);
      if !thrown {
        PieceMoved(arena, merged, matrix, x, y, x, row, kind);
      }
      arena, y := merged, row;
    }

    /** `playerHardDrop`: drops and merges the piece, then spawns, sweeps,
        restarts the gravity counter and allows holding again; if the merge
        throws, the rest of the action does not happen. */
    method PlayerHardDrop() returns (thrown: bool)
      requires Valid() && kind.Some?
      modifies this`arena, this`nextPieces, this`kind, this`matrix, this`x, this`y, this`isGameOver,
        this`score, this`lastLevel, this`dropInterval, this`canHold, this`dropCounter
      ensures HardDrop(old(Snapshot()), Snapshot(), thrown)
      ensures thrown ==> dropCounter == old(dropCounter)
      ensures !thrown ==> Valid() && dropCounter == 0
    {
      thrown := DropAndMerge();
      if !thrown {
        dropCounter := 0;
        SpawnAndSweep();
      }
    }

    /** `playerHold`: does nothing unless holding is allowed and the game is
        running; otherwise the current type goes to the hold slot and either
        the next piece spawns (empty slot) or the held type comes back at the
        spawn position with no collision or game-over check (full slot).
        Either way holding is then barred until the next lock or restart. */
    method PlayerHold()
      requires Valid()
      modifies this`hold, this`kind, this`matrix, this`x, this`y, this`nextPieces, this`isGameOver, this`canHold
      ensures Valid()
      ensures old(isGameOver) || !old(isGameStarted) || old(isPaused) ==>
        Snapshot() == old(Snapshot()) && hold == old(hold)
      ensures !old(isGameOver) && old(isGameStarted) && !old(isPaused) ==>
        Hold(old(Snapshot()), Snapshot(), old(hold), hold)
    {
      if !canHold || isGameOver || !isGameStarted || isPaused {
        return;
      }
      var current := kind;
      if hold.None? {
        hold, canHold := current, false;
        PlayerReset();
      } else {
        var held := hold.value;
        SpawnFits(arena, held);
        var m := PieceMatrix(held);
        hold, kind, matrix, y, x, canHold := current, Some(held), m, 0, SpawnX(|m[0]|), false;
      }
    }

    /** The Left or Right part of `handleInput`: a held key whose timer is
        due moves the piece `dir` columns and is rearmed. */
    method MoveKey(k: int, dir: int, time: int) returns (fired: bool)
      requires Valid() && kind.Some? && k != KeyDown
      modifies this`x, this`keyTimers
      ensures Valid()
      ensures fired <==> Held(keyState, k) && Due(TimerOf(old(keyTimers), k), time)
      ensures keyTimers == Rearm(old(keyTimers), keyState, k, time)
      ensures Snapshot() == if fired then Shifted(old(Snapshot()), dir) else old(Snapshot())
    {
      fired := Held(keyState, k) && Due(TimerOf(keyTimers, k), time);
      var timers := Rearm(keyTimers, keyState, k, time);
      if fired {
        PlayerMove(dir);
      }
      keyTimers := timers;
    }

    /** The Down part of `handleInput`: a held Down key whose timer is due
        drops the piece one row (or locks it) and is rearmed. */
    method DownKey(time: int) returns (fired: bool)
      requires Valid() && kind.Some?
      modifies this`arena, this`nextPieces, this`kind, this`matrix, this`x, this`y, this`isGameOver,
        this`score, this`lastLevel, this`dropInterval, this`canHold, this`dropCounter, this`keyTimers
      ensures Valid()
      ensures fired <==> Held(keyState, KeyDown) && Due(TimerOf(old(keyTimers), KeyDown), time)
      ensures keyTimers == Rearm(old(keyTimers), keyState, KeyDown, time)
      ensures fired ==> Drop(old(Snapshot()), Snapshot()) && dropCounter == 0
      ensures !fired ==> Snapshot() == old(Snapshot()) && dropCounter == old(dropCounter)
    {
      fired := Held(keyState, KeyDown) && Due(TimerOf(keyTimers, KeyDown), time);
      var timers := Rearm(keyTimers, keyState, KeyDown, time);
      if fired {
        PlayerDrop();
      }
      keyTimers := timers;
    }

    /** `handleInput`: for Left, Right and Down in that order, a held key
        whose timer is due fires (a move left, a move right, a soft drop)
        and is rearmed. Reports which of the three fired. */
    method HandleInput(time: int) returns (left: bool, right: bool, down: bool)
      requires Valid() && kind.Some?
      modifies this`arena, this`nextPieces, this`kind, this`matrix, this`x, this`y, this`isGameOver,
        this`score, this`lastLevel, this`dropInterval, this`canHold, this`dropCounter, this`keyTimers
      ensures Valid()
      ensures left <==> Held(keyState, KeyLeft) && Due(TimerOf(old(keyTimers), KeyLeft), time)
      ensures right <==> Held(keyState, KeyRight) && Due(TimerOf(old(keyTimers), KeyRight), time)
      ensures down <==> Held(keyState, KeyDown) && Due(TimerOf(old(keyTimers), KeyDown), time)
      ensures keyTimers ==
        Rearm(Rearm(Rearm(old(keyTimers), keyState, KeyLeft, time), keyState, KeyRight, time), keyState, KeyDown, time)
      ensures var s := AfterMoves(old(Snapshot()), left, right);
        if down then Drop(s, Snapshot()) && dropCounter == 0 else Snapshot() == s && dropCounter == old(dropCounter)
    {
      ghost var t0 := keyTimers;
      left := MoveKey(KeyLeft, -1, time);
      ghost var t1 := keyTimers;
      RearmFollowsNextTimer(t0, keyState, KeyLeft, time);
      right := MoveKey(KeyRight, 1, time);
      RearmFollowsNextTimer(t1, keyState, KeyRight, time);
      RearmFollowsNextTimer(t0, keyState, KeyLeft, time);
      down := DownKey(time);
    }

    /** The gravity part of `update` on a running game: the frame's elapsed
        time is added to the counter and, once the counter is past the
        interval, the piece drops one row or locks where it is (the same
        steps as `playerDrop`). */
    method GravityStep(time: int) returns (dropped: bool)
      requires Valid() && kind.Some?
      modifies this`arena, this`nextPieces, this`kind, this`matrix, this`x, this`y, this`isGameOver,
        this`score, this`lastLevel, this`dropInterval, this`canHold, this`dropCounter, this`lastTime
      ensures Valid() && kind.Some? && lastTime == time
      ensures dropped <==> old(dropCounter) + (time - old(lastTime)) > old(dropInterval)
      ensures dropped ==> Drop(old(Snapshot()), Snapshot()) && dropCounter == 0
      ensures !dropped ==> Snapshot() == old(Snapshot()) && dropCounter == old(dropCounter) + (time - old(lastTime))
    {
      var counter := dropCounter + (time - lastTime);
      dropped := counter > dropInterval;
      if dropped {
        PlayerDrop();
      } else {
        dropCounter := counter;
      }
      lastTime := time;
    }

    /** One frame of a running game: the gravity step, which reports
        whether it `dropped` and leaves the play state `mid`, then the held
        keys, which report whether Left, Right and Down fired. */
    method RunFrame(time: int) returns (dropped: bool, left: bool, right: bool, down: bool, ghost mid: Play)
      requires Valid() && kind.Some?
      modifies this`arena, this`nextPieces, this`kind, this`matrix, this`x, this`y, this`isGameOver,
        this`score, this`lastLevel, this`dropInterval, this`canHold, this`dropCounter, this`lastTime,
        this`keyTimers
      ensures Valid() && lastTime == time
      ensures dropped <==> old(dropCounter) + (time - old(lastTime)) > old(dropInterval)
      ensures if dropped then Drop(old(Snapshot()), mid) else mid == old(Snapshot())
      ensures left <==> Held(keyState, KeyLeft) && Due(TimerOf(old(keyTimers), KeyLeft), time)
      ensures right <==> Held(keyState, KeyRight) && Due(TimerOf(old(keyTimers), KeyRight), time)
      ensures down <==> Held(keyState, KeyDown) && Due(TimerOf(old(keyTimers), KeyDown), time)
      ensures keyTimers ==
        Rearm(Rearm(Rearm(old(keyTimers), keyState, KeyLeft, time), keyState, KeyRight, time), keyState, KeyDown, time)
      ensures var s := AfterMoves(mid, left, right);
        if down then Drop(s, Snapshot()) && dropCounter == 0
        else Snapshot() == s && dropCounter == if dropped then 0 else old(dropCounter) + (time - old(lastTime))
    {
      dropped := GravityStep(time);
      mid := Snapshot();
      left, right, down := HandleInput(time);
    }

    /** `update`, one animation frame at `time`: nothing while the game is
        not started, paused or over; otherwise the frame of `RunFrame`, with
        the same reports. `locked` tells whether a piece was locked in this
        frame: the score never falls, without a lock only the piece's
        position, the counter, the clock and the timers change, and only a
        lock allows holding again. */
    method Update(time: int) returns (ghost dropped: bool, ghost left: bool, ghost right: bool, ghost down: bool,
                                      ghost mid: Play, ghost locked: bool)
      requires Valid()
      modifies this`arena, this`nextPieces, this`kind, this`matrix, this`x, this`y, this`isGameOver,
        this`score, this`lastLevel, this`dropInterval, this`canHold, this`dropCounter, this`lastTime,
        this`keyTimers
      ensures Valid()
      ensures !old(isGameStarted) || old(isPaused) || old(isGameOver) ==>
        && Snapshot() == old(Snapshot()) && !locked
        && dropCounter == old(dropCounter) && lastTime == old(lastTime) && keyTimers == old(keyTimers)
        && lastLevel == old(lastLevel) && dropInterval == old(dropInterval)
      ensures old(isGameStarted) && !old(isPaused) && !old(isGameOver) ==>
        && lastTime == time
        && (dropped <==> old(dropCounter) + (time - old(lastTime)) > old(dropInterval))
        && (if dropped then Drop(old(Snapshot()), mid) else mid == old(Snapshot()))
        && (left <==> Held(keyState, KeyLeft) && Due(TimerOf(old(keyTimers), KeyLeft), time))
        && (right <==> Held(keyState, KeyRight) && Due(TimerOf(old(keyTimers), KeyRight), time))
        && (down <==> Held(keyState, KeyDown) && Due(TimerOf(old(keyTimers), KeyDown), time))
        && keyTimers ==
             Rearm(Rearm(Rearm(old(keyTimers), keyState, KeyLeft, time), keyState, KeyRight, time), keyState, KeyDown, time)
        && var s := AfterMoves(mid, left, right);
           if down then Drop(s, Snapshot()) && dropCounter == 0
           else Snapshot() == s && dropCounter == if dropped then 0 else old(dropCounter) + (time - old(lastTime))
      ensures score >= old(score) && lastLevel >= old(lastLevel)
      ensures Progress(old(Snapshot()), Snapshot(), locked)
    {
      dropped, left, right, down, mid, locked := false, false, false, false, Snapshot(), false;
      if !isGameStarted || isPaused || isGameOver {
        return;
      }
      dropped, left, right, down, mid := RunFrame(time);
      locked := FrameProgress(old(Snapshot()), mid, Snapshot(), dropped, left, right, down);
      HigherScoreFaster(old(score), score);
    }

    /** `togglePause`: only in a started game that is not over; flips the
        pause flag, and on resuming restarts the frame clock at `now`. */
    method TogglePause(now: int)
      modifies this`isPaused, this`lastTime
      ensures !isGameStarted || isGameOver ==> isPaused == old(isPaused) && lastTime == old(lastTime)
      ensures isGameStarted && !isGameOver ==>
        && isPaused == !old(isPaused)
        && lastTime == if isPaused then old(lastTime) else now
    {
      if !isGameStarted || isGameOver {
        return;
      }
      isPaused := !isPaused;
      if !isPaused {
        lastTime := now;
      }
    }

    /** `startGame` up to its frame: sets the phase to running, spawns the
        first piece onto the field as it is, brings the level up to date and
        sets the frame clock to `now`. */
    method BeginGame(now: int)
      requires Valid()
      modifies this`nextPieces, this`kind, this`matrix, this`x, this`y, this`isGameOver,
        this`lastLevel, this`dropInterval, this`lastTime, this`isGameStarted, this`isPaused
      ensures Valid() && isGameStarted && !isPaused && lastTime == now
      ensures SpawnedAs(old(nextPieces), arena, false, nextPieces, kind, matrix, x, y, isGameOver)
      ensures lastLevel == Level(score) && dropInterval == DropInterval(Level(score))
    {
      isGameStarted, isPaused, isGameOver := true, false, false;
      PlayerReset();
      var _ := UpdateScore();
      lastTime := now;
    }

    /** `startGame`: the steps above, then one frame at time 0 (the script
        calls `update()` with no argument); that frame runs unless the first
        piece already collided. */
    method StartGame(now: int)
      requires Valid()
      modifies this`arena, this`nextPieces, this`kind, this`matrix, this`x, this`y, this`isGameOver,
        this`score, this`lastLevel, this`dropInterval, this`canHold, this`dropCounter, this`lastTime,
        this`keyTimers, this`isGameStarted, this`isPaused
      ensures Valid() && isGameStarted && !isPaused && kind.Some?
      ensures isGameOver || lastTime == 0
    {
      BeginGame(now);
      ghost var _, _, _, _, _, _ := Update(0);
    }

    /** The field and score part of `restartGame`: every row is zeroed,
        the score and `lastLevel` go back to 0 and 1, and `updateScore`
        brings the gravity interval back to 1000 ms. */
    method ClearField()
      requires Valid()
      modifies this`arena, this`score, this`lastLevel, this`dropInterval
      ensures Valid()
      ensures WellFormed(arena) && Empty(arena)
      ensures score == 0 && lastLevel == 1 && dropInterval == 1000
    {
      var empty := ClearRows(arena);
      EmptiedField(arena, empty, matrix, x, y, kind);
      arena, score, lastLevel := empty, 0, 1;
      var _ := UpdateScore();
    }

    /** `restartGame`: the field and score are reset, the hold slot is
        emptied, holding is allowed, the game-over flag is lowered, a piece
        is spawned from the queue as it stands and the frame clock is
        zeroed. The field is empty, so the new piece never collides and the
        game is running again; the queue and the pause flag are kept. */
    method RestartGame()
      requires Valid()
      modifies this`arena, this`score, this`hold, this`canHold, this`lastLevel, this`dropInterval,
        this`isGameOver, this`nextPieces, this`kind, this`matrix, this`x, this`y, this`lastTime
      ensures Valid() && kind.Some? && !isGameOver
      ensures WellFormed(arena) && Empty(arena)
      ensures score == 0 && hold == None && canHold && lastLevel == 1 && dropInterval == 1000 && lastTime == 0
      ensures SpawnedAs(old(nextPieces), arena, false, nextPieces, kind, matrix, x, y, isGameOver)
    {
      ClearField();
      hold, canHold, isGameOver, lastTime := None, true, false, 0;
      SpawnClearOnEmpty(arena);
      PlayerReset();
    }

    /** The keys of a fresh press that act once and cannot throw: Q turns
        the piece counter-clockwise, W or Up clockwise, Shift or C holds it;
        any other key does nothing here. */
    method TurnOrHold(code: int)
      requires Valid() && isGameStarted && !isGameOver && !isPaused && code != KeySpace
      modifies this`nextPieces, this`kind, this`matrix, this`x, this`y, this`isGameOver, this`canHold, this`hold
      ensures Valid()
      ensures Pressed(old(Snapshot()), Snapshot(), old(hold), hold, old(dropCounter), dropCounter, code, false)
    {
      if code == KeyQ {
        PlayerRotate(-1);
      } else if code == KeyW || code == KeyUp {
        PlayerRotate(1);
      } else if code == KeyShift || code == KeyC {
        PlayerHold();
      }
    }

    /** The actions of a fresh press in a running game: Space hard-drops;
        Q, W, Up, Shift and C turn or hold the piece. */
    method Dispatch(code: int) returns (thrown: bool)
      requires Valid() && isGameStarted && !isGameOver && !isPaused
      modifies this`arena, this`nextPieces, this`kind, this`matrix, this`x, this`y, this`isGameOver,
        this`score, this`lastLevel, this`dropInterval, this`canHold, this`dropCounter, this`hold
      ensures !thrown ==> Valid()
      ensures Pressed(old(Snapshot()), Snapshot(), old(hold), hold, old(dropCounter), dropCounter, code, thrown)
    {
      if code == KeySpace {
        thrown := PlayerHardDrop();
      } else {
        TurnOrHold(code);
        thrown := false;
      }
    }

    /** The fresh-press part of the `keydown` handler in a running game: Q
        turns the piece counter-clockwise, W or Up clockwise, Space
        hard-drops it, Shift or C holds it; the key is marked down with its
        timer cleared, and Space is released again at once unless the hard
        drop threw. No action looks at the key tables, so they are written
        after it. */
    method PressKey(code: int) returns (thrown: bool)
      requires Valid() && isGameStarted && !isGameOver && !isPaused && !Held(keyState, code)
      modifies this`arena, this`nextPieces, this`kind, this`matrix, this`x, this`y, this`isGameOver,
        this`score, this`lastLevel, this`dropInterval, this`canHold, this`dropCounter, this`hold,
        this`keyState, this`keyTimers
      ensures thrown ==> code == KeySpace
      ensures !thrown ==> Valid()
      ensures keyState == old(keyState)[code := code != KeySpace || thrown]
      ensures keyTimers == old(keyTimers)[code := 0]
      ensures Pressed(old(Snapshot()), Snapshot(), old(hold), hold, old(dropCounter), dropCounter, code, thrown)
    {
      thrown := Dispatch(code);
      keyState, keyTimers := keyState[code := code != KeySpace || thrown], keyTimers[code := 0];
    }

    /** The `keydown` handler: before the start only Enter does anything (it
        starts the game); once the game is over nothing does; P and Escape
        toggle the pause; while paused nothing else does; otherwise a key
        that is not already down is pressed. */
    method OnKeyDown(code: int, now: int) returns (thrown: bool)
      requires Valid()
      modifies this`arena, this`nextPieces, this`kind, this`matrix, this`x, this`y, this`isGameOver,
        this`score, this`lastLevel, this`dropInterval, this`canHold, this`dropCounter, this`hold,
        this`keyState, this`keyTimers, this`lastTime, this`isGameStarted, this`isPaused
      ensures thrown ==> old(isGameStarted) && !old(isGameOver) && !old(isPaused) && code == KeySpace
      ensures !thrown ==> Valid()
      ensures !old(isGameStarted) && code != KeyEnter ==> unchanged(this)
      ensures !old(isGameStarted) && code == KeyEnter ==> isGameStarted && !isPaused
      ensures old(isGameStarted) && old(isGameOver) ==> unchanged(this)
      ensures old(isGameStarted) && !old(isGameOver) && (code == KeyP || code == KeyEscape) ==>
        isPaused == !old(isPaused) && keyState == old(keyState) && arena == old(arena) && kind == old(kind)
      ensures old(isGameStarted) && !old(isGameOver) && old(isPaused) && code != KeyP && code != KeyEscape ==>
        unchanged(this)
      ensures (old(isGameStarted) && !old(isGameOver) && code != KeyP && code != KeyEscape
               && Held(old(keyState), code)) ==> unchanged(this)
      ensures (old(isGameStarted) && !old(isGameOver) && !old(isPaused) && code != KeyP && code != KeyEscape
               && !Held(old(keyState), code)) ==>
        && keyState == old(keyState)[code := code != KeySpace || thrown] && keyTimers == old(keyTimers)[code := 0]
        && Pressed(old(Snapshot()), Snapshot(), old(hold), hold, old(dropCounter), dropCounter, code, thrown)
    {
      thrown := false;
      if !isGameStarted {
        if code == KeyEnter {
          StartGame(now);
        }
        return;
      }
      if isGameOver {
        return;
      }
      if code == KeyP || code == KeyEscape {
        TogglePause(now);
        return;
      }
      if isPaused || Held(keyState, code) {
        return;
      }
      thrown := PressKey(code);
    }

    /** The `keyup` handler: the key is no longer down and its timer is
        dropped, in every phase. */
    method OnKeyUp(code: int)
      modifies this`keyState, this`keyTimers
      ensures keyState == old(keyState)[code := false]
      ensures keyTimers == old(keyTimers) - {code}
      ensures !Held(keyState, code) && TimerOf(keyTimers, code) == 0
    {
      keyState := keyState[code := false];
      keyTimers := keyTimers - {code};
    }
  }
}
