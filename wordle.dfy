/** Wordle: the player has a fixed number of guesses of a fixed length;
    guesses are recorded by turn, and the round ends when the answer is
    guessed or the guesses are used up. */
module Wordle {
  import opened Common

  /** The number of guesses used when none, or one outside 3..9, is given. */
  const DEFAULT_GUESS_SIZE: int := 6
  /** The word length used when none, or one outside 4..8, is given. */
  const DEFAULT_WORD_SIZE: int := 5

  /** `parse_args`: fills in and corrects the arguments in place. */
  method ParseArgs(args: Args)
    modifies args
    ensures args.guesses == Some(ClampGuesses(old(args.guesses)))
    ensures args.letters == Some(ClampLetters(old(args.letters)))
    ensures args.difficulty == Some(if old(args.difficulty).Some? then old(args.difficulty).value else Easy)
  {
    if args.guesses.None? {
      args.guesses := Some(DEFAULT_GUESS_SIZE);
    } else if args.guesses.value < 3 || args.guesses.value > 9 {
      args.guesses := Some(DEFAULT_GUESS_SIZE);
    }
    if args.letters.None? {
      args.letters := Some(DEFAULT_WORD_SIZE);
    } else if args.letters.value < 4 || args.letters.value > 8 {
      args.letters := Some(DEFAULT_WORD_SIZE);
    }
    if args.difficulty.None? {
      args.difficulty := Some(Easy);
    }
  }

  /** The guess count kept: a given value in 3..9, otherwise the default. */
  function ClampGuesses(g: Option<int>): (n: int)
    ensures 3 <= n <= 9
    ensures g.Some? && 3 <= g.value <= 9 ==> n == g.value
    ensures g.None? || g.value < 3 || g.value > 9 ==> n == DEFAULT_GUESS_SIZE
  {
    if g.Some? && 3 <= g.value <= 9 then g.value else DEFAULT_GUESS_SIZE
  }

  /** The word length kept: a given value in 4..8, otherwise the default. */
  function ClampLetters(l: Option<int>): (n: int)
    ensures 4 <= n <= 8
    ensures l.Some? && 4 <= l.value <= 8 ==> n == l.value
    ensures l.None? || l.value < 4 || l.value > 8 ==> n == DEFAULT_WORD_SIZE
  {
    if l.Some? && 4 <= l.value <= 8 then l.value else DEFAULT_WORD_SIZE
  }

  /** Correcting twice is correcting once. */
  lemma ClampIdempotent(g: Option<int>, l: Option<int>)
    ensures ClampGuesses(Some(ClampGuesses(g))) == ClampGuesses(g)
    ensures ClampLetters(Some(ClampLetters(l))) == ClampLetters(l)
  {
  }

  /** The empty record of n guesses: keys 0..n-1, each without a guess. */
  method EmptyGuesses(n: int) returns (m: map<int, Option<string>>)
    ensures forall k :: k in m <==> 0 <= k < n
    ensures forall k :: k in m ==> m[k] == None
  {
    m := map[];
    var i := 0;
    while i < n
      invariant 0 <= i <= if n < 0 then 0 else n
      invariant forall k :: k in m <==> 0 <= k < i
      invariant forall k :: k in m ==> m[k] == None
    {
      m := m[i := None];
      i := i + 1;
    }
  }

  /** Which screen the display shows after a guess. */
  datatype DisplayType = Start | GameBoard | Victory | Failure

  /** The code's "already guessed" test: some recorded guess contains the
      new one. */
  function AlreadyGuessed(guesses: map<int, Option<string>>, guess: string): (r: bool)
    ensures r ==> exists k :: k in guesses && guesses[k].Some? && |guess| <= |guesses[k].value|
    ensures (exists k :: k in guesses && guesses[k] == Some(guess)) ==> r
  {
    ContainsSelf(guess);
    exists k :: k in guesses && guesses[k].Some? && ContainsStr(guesses[k].value, guess)
  }

  class Wordle {
    var turn: int
    var guesses: map<int, Option<string>>
    const answer: string
    const maxGuesses: int
    const maxLetters: int

    /** The limits are the corrected ones; every turn so far has its guess
        recorded, of the game's length, and no later key holds one; the
        keys 0..maxGuesses-1 stay present. */
    ghost predicate Valid()
      reads this
    {
      && 3 <= maxGuesses <= 9 && 4 <= maxLetters <= 8
      && 0 <= turn
      && (forall k :: 0 <= k < maxGuesses ==> k in guesses)
      && (forall k :: 0 <= k < turn ==> k in guesses && guesses[k].Some?)
      && (forall k :: k in guesses && guesses[k].Some? ==> 0 <= k < turn && |guesses[k].value| == maxLetters)
    }

    /** `new`: corrects the arguments, then starts with no guesses. */
    constructor (args: Args, answer: string)
      modifies args
      ensures Valid()
      ensures turn == 0 && this.answer == answer
      ensures maxGuesses == ClampGuesses(old(args.guesses)) && maxLetters == ClampLetters(old(args.letters))
      ensures forall k :: k in guesses <==> 0 <= k < maxGuesses
      ensures forall k :: k in guesses ==> guesses[k] == None
    {
      ParseArgs(args);
      var m := EmptyGuesses(args.guesses.value);
      turn := 0;
      this.answer := answer;
      guesses := m;
      maxGuesses := args.guesses.value;
      maxLetters := args.letters.value;
    }

    /** `guess`: records the guess at the current turn and moves to the
        next; the answer containing the guess wins, the last turn loses. */
    method Guess(g: string) returns (d: DisplayType)
      modifies this
      ensures guesses == old(guesses)[old(turn) := Some(g)] && turn == old(turn) + 1
      ensures d == (if ContainsStr(answer, g) then Victory
                    else if turn == maxGuesses then Failure
                    else GameBoard)
    {
      guesses := guesses[turn := Some(g)];
      turn := turn + 1;
      if ContainsStr(answer, g) {
        d := Victory;
      } else if turn == maxGuesses {
        d := Failure;
      } else {
        d := GameBoard;
      }
    }

    /** Since every recorded guess has the game's length, the code's
        containment test is the same as the guess having been recorded. */
    lemma AlreadyMeansRecorded(guess: string)
      requires Valid() && |guess| == maxLetters
      ensures AlreadyGuessed(guesses, guess) <==> exists k :: k in guesses && guesses[k] == Some(guess)
    {
      if AlreadyGuessed(guesses, guess) {
        var k :| k in guesses && guesses[k].Some? && ContainsStr(guesses[k].value, guess);
        ContainsSameLength(guesses[k].value, guess);
      }
      if exists k :: k in guesses && guesses[k] == Some(guess) {
        var k :| k in guesses && guesses[k] == Some(guess);
        ContainsSameLength(guess, guess);
      }
    }

    /** One pass of the game loop over the next input line (`None` at end of
        input), a dictionary check standing for the word list, and the reply
        to "Play again?" when the round ends. A command is answered from the
        command table; a guess of the wrong length, not a word, or already
        guessed changes nothing; any other guess is recorded, and the round
        ends when it wins or uses the last turn. */
    method DoLoop(line: Option<string>, isWord: string -> bool, reply: Option<string>) returns (code: GameCode)
      requires Valid()
      modifies this
      ensures Valid()
      ensures line.None? ==> code == Over && guesses == old(guesses) && turn == old(turn)
      ensures line.Some? ==>
        var g := AsciiUpper(line.value);
        if IsCommand(g) then
          code == CommandCode(AsciiLower(g)) && guesses == old(guesses) && turn == old(turn)
        else if |g| != maxLetters || !isWord(g) || AlreadyGuessed(old(guesses), g) then
          code == Ongoing && guesses == old(guesses) && turn == old(turn)
        else
          && guesses == old(guesses)[old(turn) := Some(g)] && turn == old(turn) + 1
          && code == (if turn == maxGuesses || ContainsStr(answer, g) then PlayAgain(reply) else Ongoing)
      ensures old(turn) < maxGuesses && code == Ongoing ==> turn < maxGuesses
    {
      if line.None? {
        return Over;
      }
      var g := AsciiUpper(line.value);
      if IsCommand(g) {
        return CommandCode(AsciiLower(g));
      }
      if |g| != maxLetters {
        return Ongoing;
      }
      if !isWord(g) {
        return Ongoing;
      }
      if AlreadyGuessed(guesses, g) {
        return Ongoing;
      }
      var shown := Guess(g);
      if turn == maxGuesses || ContainsStr(answer, g) {
        return PlayAgain(reply);
      }
      return Ongoing;
    }
  }
}
