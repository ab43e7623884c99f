/** The game record as the firmware keeps it: one object whose fields the
    update routines overwrite in place, the field an array of Width * Height
    cells in row-major order. Every routine is proved to produce exactly the
    state that the corresponding function of module Snake describes. */
module SnakeGame {
  import opened Snake

  class Game {
    const field: array<int>
    var len: int
    var bugLifetime: int
    var delay: int
    var spawnRate: int
    var growthRate: int
    var x: int
    var y: int
    var dir: Dir
    var phase: Phase

    ghost predicate Valid()
      reads this
    {
      field.Length == Cells
    }

    /** The record as a value. */
    ghost function Model(): State
      reads this, field
    {
      State(field[..], len, bugLifetime, delay, spawnRate, growthRate, x, y, dir, phase)
    }

    /** The record as static storage holds it before gameInit: all zero, which
        reads as phase Playing and direction Up. */
    constructor ()
      ensures Valid() && fresh(field)
      ensures Model() == State(seq(Cells, _ => 0), 0, 0, 0, 0, 0, 0, 0, Up, Playing)
    {
      field := new int[Cells](_ => 0);
      len, bugLifetime, delay, spawnRate, growthRate := 0, 0, 0, 0, 0;
      x, y, dir, phase := 0, 0, Up, Playing;
      new;
      assert field[..] == seq(Cells, _ => 0);
    }

    /** gameInit: clears the field and reloads every scalar, so the result does
        not depend on the state it replaces. */
    method Init()
      requires Valid()
      modifies this, field
      ensures Valid()
      ensures Model() == Initial()
    {
      forall i | 0 <= i < field.Length {
        field[i] := 0;
      }
      phase := Playing;
      dir := Down;
      x := 25;
      y := 0;
      len := 16;
      delay := 1000000;
      growthRate := 3;
      bugLifetime := Int16Min / 128;
      spawnRate := UInt32Max - UInt32Max / 32;
      assert field[..] == seq(Cells, _ => 0);
    }

    /** gamePlayingUpdate: turn on the button edges, step the head, stop on
        the wall or the body, grow on a bug, decay the whole field in place,
        write the head and maybe spawn a bug. r0, r1 and r2 are the successive
        draws of random32(). */
    method PlayingUpdate(yesUp: bool, noUp: bool, r0: U32, r1: U32, r2: U32)
      requires Valid()
      requires len < Int16Max
      modifies this, field
      ensures Valid()
      ensures Model() == PlayingNext(old(Model()), yesUp, noUp, r0, r1, r2)
    {
      ghost var s := Model();
      Steer(yesUp, noUp);

      if x < 0 || x >= Width || y < 0 || y >= Height {
        phase := GameOver;
        CollisionEndsGame(s, yesUp, noUp, r0, r1, r2);
        return;
      }
      if field[Index(x, y)] > 0 {
        phase := GameOver;
        CollisionEndsGame(s, yesUp, noUp, r0, r1, r2);
        return;
      }
      if field[Index(x, y)] < 0 {
        len := len + 1;
      }
      assert Survives(s, yesUp, noUp) && Head(s, yesUp, noUp) == Index(x, y);

      DecaySweep();
      field[Index(x, y)] := len;
      ghost var written := Decayed(s.field)[Index(x, y) := len];
      assert field[..] == written;

      SpawnBug(r0, r1, r2);
      SurvivingNext(s, yesUp, noUp, r0, r1, r2, Model());
    }

    /** The first two steps of gamePlayingUpdate: the button edges turn the
        direction (YesUp clockwise, then NoUp counter-clockwise), and the head
        moves one cell along the new direction. */
    method Steer(yesUp: bool, noUp: bool)
      modifies this`dir, this`x, this`y
      ensures dir == Turn(old(dir), yesUp, noUp)
      ensures (x, y) == Advance(old(x), old(y), dir)
    {
      if yesUp {
        match dir {
          case Up => dir := Right;
          case Left => dir := Up;
          case Down => dir := Left;
          case Right => dir := Down;
        }
      }
      if noUp {
        match dir {
          case Up => dir := Left;
          case Left => dir := Down;
          case Down => dir := Right;
          case Right => dir := Up;
        }
      }

      match dir {
        case Up => y := y - 1;
        case Left => x := x - 1;
        case Down => y := y + 1;
        case Right => x := x + 1;
      }
    }

    /** The sweep of gamePlayingUpdate that moves every cell one step toward
        zero, row by row, in place. */
    method DecaySweep()
      requires Valid()
      modifies field
      ensures field[..] == Decayed(old(field[..]))
    {
      ghost var before := field[..];
      for row := 0 to Height
        invariant forall i | 0 <= i < row * Width :: field[i] == DecayCell(before[i])
        invariant forall i | row * Width <= i < Cells :: field[i] == before[i]
      {
        for col := 0 to Width
          invariant forall i | 0 <= i < row * Width + col :: field[i] == DecayCell(before[i])
          invariant forall i | row * Width + col <= i < Cells :: field[i] == before[i]
        {
          var k := Index(col, row);
          if field[k] > 0 {
            field[k] := field[k] - 1;
          } else if field[k] < 0 {
            field[k] := field[k] + 1;
          }
        }
      }
    }

    /** The last step of gamePlayingUpdate: when the first draw exceeds the
        spawn rate, the cell picked by the other two draws becomes a fresh bug,
        whatever it held. */
    method SpawnBug(r0: U32, r1: U32, r2: U32)
      requires Valid()
      modifies field
      ensures field[..] ==
        if spawnRate < r0 then old(field[..])[BugCell(r1, r2) := BugLifetime] else old(field[..])
    {
      if spawnRate < r0 {
        var bugX := r1 % Width;
        var bugY := r2 % Height;
        field[Index(bugX, bugY)] := Int16Min / 128;
      }
    }

    /** gameOverUpdate: the YesUp edge restarts the game; nothing else has an effect. */
    method OverUpdate(yesUp: bool)
      requires Valid()
      modifies this, field
      ensures Valid()
      ensures Model() == OverNext(old(Model()), yesUp)
    {
      if yesUp {
        Init();
      }
    }

    /** gameUpdate: one tick of whichever phase the game is in. */
    method Update(yesUp: bool, noUp: bool, r0: U32, r1: U32, r2: U32)
      requires Valid()
      requires phase == Playing ==> len < Int16Max
      modifies this, field
      ensures Valid()
      ensures Model() == Next(old(Model()), yesUp, noUp, r0, r1, r2)
    {
      match phase {
        case Playing => PlayingUpdate(yesUp, noUp, r0, r1, r2);
        case GameOver => OverUpdate(yesUp);
      }
    }
  }
}
