/** The minesweeper command layer: defaulting the difficulty, reading
    a command line, dispatching `!check x y` to the mine test or the reveal,
    and the per-line step of the game loop.

    The dispatch is stated twice. `Decide` is what the command handler does
    as written, including the inputs on which it panics; `DecideFixed` is
    the evidently intended behaviour, which the `Minesweeper` class follows. */
module Minesweeper {
  import opened Common
  import opened TextInput
  import opened MinesweeperTiles
  import opened MinesweeperBoard

  const CHECK_ALIASES: set<string> := {"!check", "!c"}
  const FLAG_ALIASES: set<string> := {"!flag", "!f", "!unflag", "!u"}
  const CHEAT: string := "!cheat"

  /** A missing difficulty defaults to Easy; a given one is kept. */
  method ParseArgs(args: Args)
    modifies args
    ensures args.difficulty == Some(DefaultDifficulty(old(args.difficulty)))
    ensures args.guesses == old(args.guesses) && args.letters == old(args.letters)
  {
    if args.difficulty.None? {
      args.difficulty := Some(Easy);
    }
  }

  function DefaultDifficulty(d: Option<Difficulty>): (r: Difficulty)
    ensures d.Some? ==> r == d.value
    ensures d.None? ==> r == Easy
  {
    if d.Some? then d.value else Easy
  }

  /** Takes the next `expected` tokens, in order; fewer than that is an error. */
  method ParseNext(rest: seq<string>, expected: nat) returns (r: Option<seq<string>>)
    ensures r.Some? <==> |rest| >= expected
    ensures r.Some? ==> r.value == rest[..expected]
  {
    var args: seq<string> := [];
    for k := 0 to expected
      invariant k <= |rest| ==> args == rest[..k]
      invariant |rest| >= k
    {
      if k >= |rest| {
        return None;
      }
      args := args + [rest[k]];
    }
    return Some(args);
  }

  /** The outcome of reading two coordinates. */
  datatype CoordsResult =
    | Coords(x: nat, y: nat)  // 0-based coordinates
    | Unparsable              // a token is not a number
    | Underflow               // a coordinate is 0, and `0 - 1` fails on `usize`

  /** The display numbers cells from 1; the board from 0. */
  function ParseCoords(args: seq<string>): (r: CoordsResult)
    requires |args| >= 2
    ensures r.Unparsable? <==> ParseUsize(args[0]).None? || ParseUsize(args[1]).None?
    ensures r.Underflow? <==> ParseUsize(args[0]).Some? && ParseUsize(args[1]).Some?
                              && (ParseUsize(args[0]).value == 0 || ParseUsize(args[1]).value == 0)
  {
    match (ParseUsize(args[0]), ParseUsize(args[1]))
    case (Some(a), Some(b)) => if a == 0 || b == 0 then Underflow else Coords(a - 1, b - 1)
    case _ => Unparsable
  }

  /** Typing the 1-based numerals of a cell gives that cell's 0-based coordinates. */
  lemma ParseCoordsOfNumerals(x: nat, y: nat)
    requires x < USIZE_MAX && y < USIZE_MAX
    ensures ParseCoords([Decimal(x + 1), Decimal(y + 1)]) == Coords(x, y)
  {
    ParseDecimal(x + 1);
    ParseDecimal(y + 1);
  }

  /** What handling one command line amounts to. */
  datatype Action =
    | Probe(x: nat, y: nat)      // the mine test, then the reveal, at an on-board cell
    | Respond(code: GameCode)    // a code, the board untouched
    | Crash                      // the handler panics

  /** The handler as written. A blank line panics on the missing first
      token; `!check` with a coordinate of 0 panics on the subtraction, and
      one past the board panics on the unchecked index; `!flag` and
      `!unflag` are unimplemented and panic. */
  function Decide(cmd: string, width: nat, height: nat): (a: Action)
    ensures a.Probe? ==> a.x < width && a.y < height
  {
    var ts := Tokens(cmd);
    if ts == [] then Crash
    else
      var head := AsciiLower(ts[0]);
      if head in CHECK_ALIASES then
        if |ts| < 3 then Respond(Ongoing)
        else
          match ParseCoords(ts[1..3])
          case Unparsable => Respond(Ongoing)
          case Underflow => Crash
          case Coords(x, y) => if x < width && y < height then Probe(x, y) else Crash
      else if head in FLAG_ALIASES then Crash
      else if head == CHEAT then Respond(Ongoing)
      else Respond(CommandCode(head))
  }

  /** The handler as evidently intended: a blank line and an off-board
      coordinate are answered like the other malformed commands, by
      carrying on. Only the unimplemented flag commands still panic. */
  function DecideFixed(cmd: string, width: nat, height: nat): (a: Action)
    ensures a.Probe? ==> a.x < width && a.y < height
  {
    var ts := Tokens(cmd);
    if ts == [] then Respond(Ongoing)
    else
      var head := AsciiLower(ts[0]);
      if head in CHECK_ALIASES then
        if |ts| < 3 then Respond(Ongoing)
        else
          match ParseCoords(ts[1..3])
          case Coords(x, y) => if x < width && y < height then Probe(x, y) else Respond(Ongoing)
          case _ => Respond(Ongoing)
      else if head in FLAG_ALIASES then Crash
      else if head == CHEAT then Respond(Ongoing)
      else Respond(CommandCode(head))
  }

  /** The first token of a line, lower-cased, if there is one. */
  function Head(cmd: string): Option<string> {
    var ts := Tokens(cmd);
    if ts == [] then None else Some(AsciiLower(ts[0]))
  }

  /** Wherever the handler as written does not panic, the intended one
      does the same thing. */
  lemma FixedAgrees(cmd: string, width: nat, height: nat)
    ensures Decide(cmd, width, height) != Crash ==> DecideFixed(cmd, width, height) == Decide(cmd, width, height)
  {
  }

  /** The intended handler panics exactly on the flag commands, and the
      quit, restart and unknown-command answers follow the shared table. */
  lemma FixedCrashes(cmd: string, width: nat, height: nat)
    ensures DecideFixed(cmd, width, height) == Crash <==> Head(cmd).Some? && Head(cmd).value in FLAG_ALIASES
    ensures Head(cmd).Some? && Head(cmd).value in QUIT_ALIASES ==> DecideFixed(cmd, width, height) == Respond(Over)
    ensures Head(cmd).Some? && Head(cmd).value in RESTART_ALIASES ==> DecideFixed(cmd, width, height) == Respond(Restart)
    ensures Head(cmd).None? ==> DecideFixed(cmd, width, height) == Respond(Ongoing)
  {
  }

  /** `!check` with fewer than two arguments, or with an argument that is
      not a number, carries on without probing. */
  lemma MalformedCheck(cmd: string, width: nat, height: nat)
    requires Head(cmd).Some? && Head(cmd).value in CHECK_ALIASES
    requires |Tokens(cmd)| < 3 || ParseCoords(Tokens(cmd)[1..3]).Unparsable?
    ensures Decide(cmd, width, height) == Respond(Ongoing)
    ensures DecideFixed(cmd, width, height) == Respond(Ongoing)
  {
  }

  /** `!c x y` typed with the 1-based numerals of an on-board cell probes that cell. */
  lemma CheckProbes(x: nat, y: nat, width: nat, height: nat)
    requires x < width && y < height && width < USIZE_MAX && height < USIZE_MAX
    ensures Decide(Join(["!c", Decimal(x + 1), Decimal(y + 1)]), width, height) == Probe(x, y)
  {
    var ts := ["!c", Decimal(x + 1), Decimal(y + 1)];
    forall i | 0 <= i < |ts| ensures IsToken(ts[i]) {
      if i == 0 {
        assert !IsAsciiWhitespace(ts[0][0]) && !IsAsciiWhitespace(ts[0][1]);
      } else {
        forall k | 0 <= k < |ts[i]| ensures !IsAsciiWhitespace(ts[i][k]) {
          assert IsDigit(ts[i][k]);
        }
      }
    }
    TokensOfJoin(ts);
    assert AsciiLower("!c") == "!c";
    assert ts[1..3] == [Decimal(x + 1), Decimal(y + 1)];
    ParseCoordsOfNumerals(x, y);
  }

  /** A blank line makes the handler as written panic. */
  lemma BlankLineCrashes(cmd: string, width: nat, height: nat)
    requires AllWhitespace(cmd)
    ensures Decide(cmd, width, height) == Crash
    ensures DecideFixed(cmd, width, height) == Respond(Ongoing)
  {
    NoTokens(cmd);
  }

  /** `!c 0 1` makes the handler as written panic, as does a column past the board. */
  lemma ZeroCoordinateCrashes(width: nat, height: nat)
    requires 0 < width < USIZE_MAX && 0 < height < USIZE_MAX
    ensures Decide(Join(["!c", Decimal(0), Decimal(1)]), width, height) == Crash
    ensures DecideFixed(Join(["!c", Decimal(0), Decimal(1)]), width, height) == Respond(Ongoing)
    ensures Decide(Join(["!c", Decimal(width + 1), Decimal(1)]), width, height) == Crash
    ensures DecideFixed(Join(["!c", Decimal(width + 1), Decimal(1)]), width, height) == Respond(Ongoing)
  {
    NumeralCommand(0, 1);
    NumeralCommand(width + 1, 1);
    ParseDecimal(0);
    ParseDecimal(1);
    ParseDecimal(width + 1);
  }

  lemma NumeralCommand(a: nat, b: nat)
    ensures var ts := Tokens(Join(["!c", Decimal(a), Decimal(b)]));
      |ts| == 3 && AsciiLower(ts[0]) == "!c" && ts[1..3] == [Decimal(a), Decimal(b)]
  {
    var ts := ["!c", Decimal(a), Decimal(b)];
    forall i | 0 <= i < |ts| ensures IsToken(ts[i]) {
      if i == 0 {
        assert !IsAsciiWhitespace(ts[0][0]) && !IsAsciiWhitespace(ts[0][1]);
      } else {
        forall k | 0 <= k < |ts[i]| ensures !IsAsciiWhitespace(ts[i][k]) {
          assert IsDigit(ts[i][k]);
        }
      }
    }
    TokensOfJoin(ts);
    assert AsciiLower("!c") == "!c";
  }

  /** What a method call of the game returns: a code, or a panic. */
  datatype Outcome = Returned(code: GameCode) | Panicked

  class Minesweeper {
    const board: Board
    var turn: int
    const difficulty: Difficulty

    ghost predicate Valid()
      reads this, board
    {
      board.Valid()
    }

    /** A new game: the difficulty defaults to Easy and the board is laid
        out from the mine draws `picks`. */
    constructor (args: Args, picks: seq<Coord>)
      requires forall p :: p in picks ==>
                 0 <= p.0 < Preset(DefaultDifficulty(args.difficulty)).width
                 && 0 <= p.1 < Preset(DefaultDifficulty(args.difficulty)).height
      modifies args
      ensures Valid() && fresh(board) && AllHidden(board.grid)
      ensures difficulty == DefaultDifficulty(old(args.difficulty))
      ensures Dimensions(board.width, board.height, board.mineCount) == Preset(difficulty)
      ensures turn == 0
      ensures args.difficulty == Some(difficulty)
    {
      ParseArgs(args);
      var d := args.difficulty.value;
      board := new Board(d, picks);
      turn := 0;
      difficulty := d;
    }

    /** Probing an on-board cell: a mine ends the game with nothing
        revealed; any other cell is revealed, cascading, and play goes on. */
    method Check(x: nat, y: nat) returns (code: GameCode)
      requires Valid() && x < board.width && y < board.height
      modifies board
      ensures Valid()
      ensures old(board.grid[x][y]) == Invisible(Mine) ==> code == Over && board.grid == old(board.grid)
      ensures old(board.grid[x][y]) != Invisible(Mine) ==>
                code == Ongoing && Cascade(old(board.grid), board.grid, x, y)
    {
      if board.CheckMine(x, y) {
        code := Over;
      } else {
        board.RevealAdjacent(x, y);
        code := Ongoing;
      }
    }

    /** One command line, dispatched as `DecideFixed` describes. */
    method HandleCommands(cmd: string) returns (out: Outcome)
      requires Valid()
      modifies board
      ensures Valid()
      ensures var a := DecideFixed(cmd, board.width, board.height);
        && (a.Crash? <==> out == Panicked)
        && (a.Respond? ==> out == Returned(a.code) && board.grid == old(board.grid))
        && (a.Probe? && old(board.grid[a.x][a.y]) == Invisible(Mine) ==>
              out == Returned(Over) && board.grid == old(board.grid))
        && (a.Probe? && old(board.grid[a.x][a.y]) != Invisible(Mine) ==>
              out == Returned(Ongoing) && Cascade(old(board.grid), board.grid, a.x, a.y))
    {
      var split := Tokens(cmd);
      if split == [] {
        return Returned(Ongoing);
      }
      var head := AsciiLower(split[0]);
      if head in CHECK_ALIASES {
        var args := ParseNext(split[1..], 2);
        if args.None? {
          return Returned(Ongoing);
        }
        assert args.value == split[1..3];
        match ParseCoords(args.value)
        case Coords(x, y) =>
          if x < board.width && y < board.height {
            var code := Check(x, y);
            return Returned(code);
          }
          return Returned(Ongoing);
        case _ =>
          return Returned(Ongoing);
      } else if head in FLAG_ALIASES {
        return Panicked;
      } else if head == CHEAT {
        return Returned(Ongoing);
      } else {
        return Returned(CommandCode(head));
      }
    }

    /** One iteration of the game loop on an already-read line: end of
        input stops the game; otherwise the line is handled and the turn
        counter moves on by one. */
    method DoLoop(line: Option<string>) returns (out: Outcome)
      requires Valid()
      modifies this, board
      ensures Valid()
      ensures line.None? ==> out == Returned(Over) && turn == old(turn) && board.grid == old(board.grid)
      ensures line.Some? ==> var a := DecideFixed(line.value, board.width, board.height);
        && (a.Crash? <==> out == Panicked)
        && (a.Respond? ==> out == Returned(a.code) && board.grid == old(board.grid))
        && (a.Probe? && old(board.grid[a.x][a.y]) == Invisible(Mine) ==>
              out == Returned(Over) && board.grid == old(board.grid))
        && (a.Probe? && old(board.grid[a.x][a.y]) != Invisible(Mine) ==>
              out == Returned(Ongoing) && Cascade(old(board.grid), board.grid, a.x, a.y))
      ensures line.Some? && out.Returned? ==> turn == old(turn) + 1
    {
      if line.None? {
        return Returned(Over);
      }
      out := HandleCommands(line.value);
      if out.Returned? {
        turn := turn + 1;
      }
    }
  }
}
