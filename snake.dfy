/** The snake game that the firmware runs instead of its normal loop
    (firmware/trezor.c), as values: the game record, one tick of each phase,
    the restart and the drawing projection, with the properties they keep.
    The in-place implementation over an array is in module SnakeGame. */
module Snake {

  /** Size of the display and hence of the field (OLED_WIDTH x OLED_HEIGHT). */
  const Width: int := 128
  const Height: int := 64
  const Cells: int := Width * Height

  const Int16Min: int := -32768
  const Int16Max: int := 32767
  const UInt32Max: int := 0xFFFF_FFFF

  /** A value of random32(). */
  type U32 = n: int | 0 <= n <= UInt32Max

  /** The values gameInit loads. */
  const StartX: int := 25
  const StartY: int := 0
  const StartLen: int := 16
  const StartDelay: int := 1000000
  const GrowthRate: int := 3
  /** INT16_MIN / 128: the value of a fresh bug (exact, so C's truncation does not matter). */
  const BugLifetime: int := Int16Min / 128
  /** A bug spawns when a draw exceeds this, about once in 32 ticks. */
  const SpawnRate: int := UInt32Max - UInt32Max / 32

  /** enum GameDir, in declaration order. */
  datatype Dir = Up | Right | Down | Left

  /** enum GameState. */
  datatype Phase = Playing | GameOver

  /** struct Game: the field, row by row, and the scalar fields. */
  datatype State = State(
    field: seq<int>,
    len: int,
    bugLifetime: int,
    delay: int,
    spawnRate: int,
    growthRate: int,
    x: int,
    y: int,
    dir: Dir,
    phase: Phase)

  /** The numeric value of a direction in its enum. */
  function Ordinal(d: Dir): (n: int)
    ensures 0 <= n < 4
  {
    match d
    case Up => 0
    case Right => 1
    case Down => 2
    case Left => 3
  }

  /** The turn on a YesUp edge. */
  function TurnRight(d: Dir): (r: Dir)
    ensures Ordinal(r) == (Ordinal(d) + 1) % 4
  {
    match d
    case Up => Right
    case Left => Up
    case Down => Left
    case Right => Down
  }

  /** The turn on a NoUp edge. */
  function TurnLeft(d: Dir): (r: Dir)
    ensures Ordinal(r) == (Ordinal(d) + 3) % 4
    ensures TurnRight(r) == d
  {
    match d
    case Up => Left
    case Left => Down
    case Down => Right
    case Right => Up
  }

  /** Input handling of a playing tick: the YesUp edge is applied first, then NoUp. */
  function Turn(d: Dir, yesUp: bool, noUp: bool): (r: Dir)
    ensures yesUp == noUp ==> r == d
    ensures yesUp && !noUp ==> r == TurnRight(d)
    ensures !yesUp && noUp ==> r == TurnLeft(d)
  {
    var afterYes := if yesUp then TurnRight(d) else d;
    if noUp then TurnLeft(afterYes) else afterYes
  }

  /** The head position one cell further along d (y grows downwards). */
  function Advance(x: int, y: int, d: Dir): (r: (int, int))
    ensures (r.0 - x) * (r.0 - x) + (r.1 - y) * (r.1 - y) == 1
    ensures r.0 == x <==> d == Up || d == Down
    ensures r.0 + r.1 > x + y <==> d == Down || d == Right
  {
    match d
    case Up => (x, y - 1)
    case Left => (x - 1, y)
    case Down => (x, y + 1)
    case Right => (x + 1, y)
  }

  predicate InBounds(x: int, y: int) {
    0 <= x < Width && 0 <= y < Height
  }

  /** GAME_CELL(x, y): the offset of a cell in the row-major field. */
  function Index(x: int, y: int): (i: int)
    requires InBounds(x, y)
    ensures 0 <= i < Cells
    ensures i % Width == x && i / Width == y
  {
    y * Width + x
  }

  /** One cell of the decay sweep. */
  function DecayCell(c: int): (r: int)
    ensures c == 0 ==> r == 0
    ensures c > 0 ==> r == c - 1 >= 0
    ensures c < 0 ==> r == c + 1 <= 0
  {
    if c > 0 then c - 1 else if c < 0 then c + 1 else 0
  }

  /** The field after the decay sweep: every cell one step toward zero. */
  function Decayed(g: seq<int>): (r: seq<int>)
    ensures |r| == |g|
    ensures forall i | 0 <= i < |g| :: (r[i] > 0 <==> g[i] > 1) && (r[i] < 0 <==> g[i] < -1)
  {
    seq(|g|, i requires 0 <= i < |g| => DecayCell(g[i]))
  }

  /** gamePlayingDraw: the pixels lit for a field, one per non-zero cell. */
  function Lit(g: seq<int>): (r: set<(int, int)>)
    requires |g| == Cells
    ensures forall p | p in r :: InBounds(p.0, p.1) && g[Index(p.0, p.1)] != 0
    ensures forall i | 0 <= i < Cells && g[i] != 0 :: (i % Width, i / Width) in r
  {
    set x, y | 0 <= x < Width && 0 <= y < Height && g[Index(x, y)] != 0 :: (x, y)
  }

  /** What gameDraw shows. */
  datatype Screen = Pixels(lit: set<(int, int)>) | Banner(row: int, text: string)

  /** gameDraw: the field while playing, a centred label once the game is over. */
  function Frame(s: State): (r: Screen)
    requires |s.field| == Cells
    ensures s.phase == GameOver <==> r.Banner?
    ensures s.phase == Playing ==> r == Pixels(Lit(s.field))
    ensures r.Banner? ==> r == Banner(Height / 2, "GAME OVER")
  {
    match s.phase
    case Playing => Pixels(Lit(s.field))
    case GameOver => Banner(Height / 2, "GAME OVER")
  }

  /** gameInit: the canonical start state; it reads nothing of the state it replaces. */
  function Initial(): (r: State)
    ensures |r.field| == Cells && forall i | 0 <= i < Cells :: r.field[i] == 0
  {
    State(seq(Cells, _ => 0), StartLen, BugLifetime, StartDelay, SpawnRate, GrowthRate,
          StartX, StartY, Down, Playing)
  }

  /** gamePlayingUpdate: one tick of play, given the two button edges and the
      three draws of random32() (the last two are only drawn when a bug spawns). */
  function PlayingNext(s: State, yesUp: bool, noUp: bool, r0: U32, r1: U32, r2: U32): (r: State)
    requires |s.field| == Cells
    ensures |r.field| == Cells
    ensures r.dir == Turn(s.dir, yesUp, noUp) && (r.x, r.y) == Target(s, yesUp, noUp)
    ensures r.phase == (if Survives(s, yesUp, noUp) then s.phase else GameOver)
    ensures r.len == s.len || r.len == s.len + 1
    ensures r.bugLifetime == s.bugLifetime && r.delay == s.delay
    ensures r.spawnRate == s.spawnRate && r.growthRate == s.growthRate
  {
    var d := Turn(s.dir, yesUp, noUp);
    var x := Advance(s.x, s.y, d).0;
    var y := Advance(s.x, s.y, d).1;
    var moved := s.(dir := d, x := x, y := y);
    if !InBounds(x, y) then moved.(phase := GameOver)
    else if s.field[Index(x, y)] > 0 then moved.(phase := GameOver)
    else
      var len := if s.field[Index(x, y)] < 0 then s.len + 1 else s.len;
      var written := Decayed(s.field)[Index(x, y) := len];
      var spawned :=
        if s.spawnRate < r0 then written[Index(r1 % Width, r2 % Height) := Int16Min / 128]
        else written;
      moved.(field := spawned, len := len)
  }

  /** gameOverUpdate: only the YesUp edge matters, and it restarts the game. */
  function OverNext(s: State, yesUp: bool): (r: State)
    ensures !yesUp ==> r == s
    ensures yesUp ==> r.phase == Playing && (r.x, r.y) == (StartX, StartY) && r.len == StartLen
  {
    if yesUp then Initial() else s
  }

  /** gameUpdate: dispatch on the phase. */
  function Next(s: State, yesUp: bool, noUp: bool, r0: U32, r1: U32, r2: U32): (r: State)
    requires |s.field| == Cells
    ensures |r.field| == Cells
  {
    match s.phase
    case Playing => PlayingNext(s, yesUp, noUp, r0, r1, r2)
    case GameOver => OverNext(s, yesUp)
  }

  /** Where a tick of play moves the head. */
  function Target(s: State, yesUp: bool, noUp: bool): (int, int)
  {
    Advance(s.x, s.y, Turn(s.dir, yesUp, noUp))
  }

  /** A tick of play that ends neither at the wall nor on the body. */
  predicate Survives(s: State, yesUp: bool, noUp: bool)
    requires |s.field| == Cells
  {
    var (x, y) := Target(s, yesUp, noUp);
    InBounds(x, y) && s.field[Index(x, y)] <= 0
  }

  /** The cell a surviving tick of play moves the head onto. */
  function Head(s: State, yesUp: bool, noUp: bool): int
    requires |s.field| == Cells && Survives(s, yesUp, noUp)
  {
    Index(Target(s, yesUp, noUp).0, Target(s, yesUp, noUp).1)
  }

  /** Whether the first draw spawns a bug. */
  predicate Spawns(s: State, r0: U32) {
    s.spawnRate < r0
  }

  /** The cell a spawned bug lands on: always on the field, whatever the draws. */
  function BugCell(r1: U32, r2: U32): (c: int)
    ensures 0 <= c < Cells
  {
    Index(r1 % Width, r2 % Height)
  }

  // ---------------------------------------------------------------------------
  // Properties of one tick of play

  /** The converse of SurvivingTick: a state that agrees with its cell-by-cell
      description of a surviving tick is the state the tick produces. */
  lemma SurvivingNext(s: State, yesUp: bool, noUp: bool, r0: U32, r1: U32, r2: U32, t: State)
    requires |s.field| == Cells && Survives(s, yesUp, noUp)
    requires t.dir == Turn(s.dir, yesUp, noUp) && (t.x, t.y) == Target(s, yesUp, noUp)
    requires t.phase == s.phase && t.bugLifetime == s.bugLifetime && t.delay == s.delay
    requires t.spawnRate == s.spawnRate && t.growthRate == s.growthRate
    requires t.len == if s.field[Head(s, yesUp, noUp)] < 0 then s.len + 1 else s.len
    requires |t.field| == Cells
    requires Spawns(s, r0) ==> t.field[BugCell(r1, r2)] == BugLifetime
    requires !Spawns(s, r0) || BugCell(r1, r2) != Head(s, yesUp, noUp) ==> t.field[Head(s, yesUp, noUp)] == t.len
    requires forall i | 0 <= i < Cells && i != Head(s, yesUp, noUp) && (!Spawns(s, r0) || i != BugCell(r1, r2)) ::
      t.field[i] == DecayCell(s.field[i])
    ensures t == PlayingNext(s, yesUp, noUp, r0, r1, r2)
  {
    SurvivingTick(s, yesUp, noUp, r0, r1, r2);
    assert t.field == PlayingNext(s, yesUp, noUp, r0, r1, r2).field;
  }

  /** Running into the wall or into the body ends the game: direction and head
      are updated, and nothing else changes, the field and the length included. */
  lemma CollisionEndsGame(s: State, yesUp: bool, noUp: bool, r0: U32, r1: U32, r2: U32)
    requires |s.field| == Cells
    requires !Survives(s, yesUp, noUp)
    ensures PlayingNext(s, yesUp, noUp, r0, r1, r2) ==
      s.(dir := Turn(s.dir, yesUp, noUp), x := Target(s, yesUp, noUp).0, y := Target(s, yesUp, noUp).1,
         phase := GameOver)
  {
  }

  /** A surviving tick leaves the phase alone, moves the head to the target, grows the
      length by one exactly when the target held a bug, and changes every cell
      but the head and the spawned bug by exactly one decay step. */
  lemma SurvivingTick(s: State, yesUp: bool, noUp: bool, r0: U32, r1: U32, r2: U32)
    requires |s.field| == Cells
    requires Survives(s, yesUp, noUp)
    ensures var r := PlayingNext(s, yesUp, noUp, r0, r1, r2);
      r.phase == s.phase && r.dir == Turn(s.dir, yesUp, noUp) && (r.x, r.y) == Target(s, yesUp, noUp)
    ensures var r := PlayingNext(s, yesUp, noUp, r0, r1, r2);
      r.len == if s.field[Head(s, yesUp, noUp)] < 0 then s.len + 1 else s.len
    ensures var r := PlayingNext(s, yesUp, noUp, r0, r1, r2);
      |r.field| == Cells &&
      (Spawns(s, r0) ==> r.field[BugCell(r1, r2)] == BugLifetime) &&
      (!Spawns(s, r0) || BugCell(r1, r2) != Head(s, yesUp, noUp) ==> r.field[Head(s, yesUp, noUp)] == r.len)
    ensures var r := PlayingNext(s, yesUp, noUp, r0, r1, r2);
      forall i | 0 <= i < Cells && i != Head(s, yesUp, noUp) && (!Spawns(s, r0) || i != BugCell(r1, r2)) ::
        r.field[i] == DecayCell(s.field[i])
  {
  }

  /** Number of trail cells (positive values) in a field. */
  function TrailCount(g: seq<int>): (n: nat)
    ensures n <= |g|
    ensures n == 0 <==> forall i | 0 <= i < |g| :: g[i] <= 0
  {
    if g == [] then 0 else (if g[0] > 0 then 1 else 0) + TrailCount(g[1..])
  }

  /** Number of cells holding v. */
  function CountOf(g: seq<int>, v: int): (n: nat)
    ensures n <= |g|
  {
    if g == [] then 0 else (if g[0] == v then 1 else 0) + CountOf(g[1..], v)
  }

  /** The decay sweep never creates trail: the trail loses exactly the cells
      whose time-to-live was 1. */
  lemma {:induction false} DecayShedsExpiringTrail(g: seq<int>)
    ensures TrailCount(Decayed(g)) == TrailCount(g) - CountOf(g, 1)
  {
    if g != [] {
      assert Decayed(g)[1..] == Decayed(g[1..]);
      DecayShedsExpiringTrail(g[1..]);
    }
  }

  /** Writing one cell changes the trail count by at most one. */
  lemma {:induction false} TrailAfterWrite(g: seq<int>, i: int, v: int)
    requires 0 <= i < |g|
    ensures TrailCount(g[i := v]) ==
      TrailCount(g) - (if g[i] > 0 then 1 else 0) + (if v > 0 then 1 else 0)
  {
    if i == 0 {
      assert g[i := v][1..] == g[1..];
    } else {
      assert g[i := v][1..] == g[1..][i - 1 := v];
      TrailAfterWrite(g[1..], i - 1, v);
    }
  }

  /** Apart from the new head cell, a tick of play never adds trail. */
  lemma TrailGrowsByAtMostOne(s: State, yesUp: bool, noUp: bool, r0: U32, r1: U32, r2: U32)
    requires |s.field| == Cells
    ensures TrailCount(PlayingNext(s, yesUp, noUp, r0, r1, r2).field) <= TrailCount(s.field) + 1
  {
    if Survives(s, yesUp, noUp) {
      var r := PlayingNext(s, yesUp, noUp, r0, r1, r2);
      var (x, y) := Target(s, yesUp, noUp);
      var head := Index(x, y);
      var decayed := Decayed(s.field);
      var written := decayed[head := r.len];
      assert r.field == if Spawns(s, r0) then written[BugCell(r1, r2) := BugLifetime] else written;
      DecayShedsExpiringTrail(s.field);
      TrailAfterWrite(decayed, head, r.len);
      if Spawns(s, r0) {
        TrailAfterWrite(written, BugCell(r1, r2), BugLifetime);
      }
    }
  }

  // ---------------------------------------------------------------------------
  // The game invariant

  /** What holds of every state from gameInit on: the configuration is the one
      gameInit loaded, a playing head is on the field, and every cell lies
      between a fresh bug and the current length, so it fits an int16_t. */
  ghost predicate Inv(s: State)
    ensures Inv(s) ==> forall i | 0 <= i < |s.field| :: Int16Min <= s.field[i] <= Int16Max
  {
    |s.field| == Cells &&
    s.bugLifetime == BugLifetime && s.delay == StartDelay &&
    s.spawnRate == SpawnRate && s.growthRate == GrowthRate &&
    0 < s.len <= Int16Max &&
    (s.phase == Playing ==> InBounds(s.x, s.y)) &&
    forall i | 0 <= i < Cells :: BugLifetime <= s.field[i] <= s.len
  }

  /** gameInit establishes the invariant. */
  lemma InitialInv()
    ensures Inv(Initial())
  {
  }

  /** Every tick keeps the invariant, as long as the length can still grow
      without overflowing its int16_t. */
  lemma NextKeepsInv(s: State, yesUp: bool, noUp: bool, r0: U32, r1: U32, r2: U32)
    requires Inv(s)
    requires s.phase == Playing ==> s.len < Int16Max
    ensures Inv(Next(s, yesUp, noUp, r0, r1, r2))
  {
  }

  /** After a surviving tick the head's pixel is lit, whether it holds the
      length or a bug spawned on it. */
  lemma HeadIsDrawn(s: State, yesUp: bool, noUp: bool, r0: U32, r1: U32, r2: U32)
    requires Inv(s) && s.phase == Playing
    requires Survives(s, yesUp, noUp)
    ensures var r := PlayingNext(s, yesUp, noUp, r0, r1, r2);
      Frame(r) == Pixels(Lit(r.field)) && (r.x, r.y) in Lit(r.field)
  {
  }

  // ---------------------------------------------------------------------------
  // The game-over phase

  /** In the game-over phase nothing changes without YesUp; with it the game
      restarts from the canonical state, whatever came before. */
  lemma GameOverWaitsForConfirm(s: State, yesUp: bool, noUp: bool, r0: U32, r1: U32, r2: U32)
    requires |s.field| == Cells && s.phase == GameOver
    ensures Next(s, yesUp, noUp, r0, r1, r2) == if yesUp then Initial() else s
  {
  }

  /** A restart shows an empty field. */
  lemma RestartShowsEmptyField()
    ensures Frame(Initial()) == Pixels({})
  {
  }

  // ---------------------------------------------------------------------------
  // Worked ticks

  /** The first tick after gameInit without input and without a bug: the head
      goes down to (25, 1), that cell holds 16 and every other cell stays empty. */
  lemma FirstTick(yesUp: bool, noUp: bool, r0: U32, r1: U32, r2: U32)
    requires !yesUp && !noUp && r0 <= SpawnRate
    ensures var r := Next(Initial(), yesUp, noUp, r0, r1, r2);
      r.phase == Playing && (r.x, r.y) == (25, 1) && r.len == 16 &&
      r.field == seq(Cells, _ => 0)[Index(25, 1) := 16] &&
      Frame(r) == Pixels({(25, 1)})
  {
  }

  /** The trail shrinks behind the head: with the head at (25, 1) holding 16
      above a trail cell (25, 0) holding 15, a tick moving down leaves 14, 15
      and a new head cell of 16 at (25, 2). */
  lemma TrailTick(s: State, r0: U32, r1: U32, r2: U32)
    requires s.field == seq(Cells, _ => 0)[Index(25, 0) := 15][Index(25, 1) := 16]
    requires (s.x, s.y) == (25, 1) && s.dir == Down && s.len == 16 && s.phase == Playing
    requires !Spawns(s, r0)
    ensures var r := Next(s, false, false, r0, r1, r2);
      r.phase == Playing && (r.x, r.y) == (25, 2) && r.len == 16 &&
      r.field == seq(Cells, _ => 0)[Index(25, 0) := 14][Index(25, 1) := 15][Index(25, 2) := 16]
  {
  }

  /** Eating a bug: the length grows by one and the bug's cell becomes the new
      head, holding the grown length rather than the bug's decayed value. */
  lemma EatTick(s: State, yesUp: bool, noUp: bool, r0: U32, r1: U32, r2: U32)
    requires |s.field| == Cells && s.phase == Playing
    requires var (x, y) := Target(s, yesUp, noUp);
      InBounds(x, y) && s.field[Index(x, y)] < 0
    requires !Spawns(s, r0)
    ensures var r := Next(s, yesUp, noUp, r0, r1, r2);
      r.phase == Playing && r.len == s.len + 1 && r.field[Index(r.x, r.y)] == s.len + 1
  {
  }
}
