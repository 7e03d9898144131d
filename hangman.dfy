/** Hangman: the player guesses one letter per line; a letter of the
    answer joins the correct guesses, any other joins the incorrect ones;
    the round is won when every letter of the answer has been guessed and
    lost at the seventh wrong letter. */
module Hangman {
  import opened Common

  /** The number of wrong letters that loses a round. */
  const HANGMAN_GUESS_SIZE: nat := 7

  /** The distinct letters of a word. */
  function Letters(s: string): (r: set<char>)
    ensures forall c :: c in r <==> c in s
  {
    set c | c in s
  }

  /** A duplicate-free sequence has as many distinct elements as positions. */
  lemma {:induction false} DistinctCount(s: seq<char>)
    requires NoRepeats(s)
    ensures |Letters(s)| == |s|
  {
    if s != [] {
      var t := s[..|s| - 1];
      DistinctCount(t);
      assert Letters(s) == Letters(t) + {s[|s| - 1]};
      assert s[|s| - 1] !in Letters(t);
    }
  }

  /** The line as the game sees it, upper-cased. */
  function GuessOf(line: string): string {
    AsciiUpper(line)
  }

  /** A line that makes a move: one letter, not guessed before. */
  predicate Fresh(guess: string, correct: seq<char>, incorrect: seq<char>) {
    |guess| == 1 && IsAsciiAlphabetic(guess[0]) && guess[0] !in correct && guess[0] !in incorrect
  }

  class Hangman {
    var turn: int
    var correct: seq<char>
    var incorrect: seq<char>
    const answer: string

    /** Each guessed letter is an upper-case letter guessed once; the
        correct ones are letters of the answer and the incorrect ones are
        not (so the two lists are disjoint); the turn counts at most the
        letters guessed. */
    ghost predicate Valid()
      reads this
    {
      && NoRepeats(correct) && NoRepeats(incorrect)
      && (forall c :: c in correct ==> c in answer && IsAsciiUpper(c))
      && (forall c :: c in incorrect ==> c !in answer && IsAsciiUpper(c))
      && 0 <= turn <= |correct| + |incorrect|
    }

    constructor (answer: string)
      ensures Valid()
      ensures this.answer == answer && turn == 0 && correct == [] && incorrect == []
    {
      this.answer := answer;
      turn := 0;
      correct := [];
      incorrect := [];
    }

    /** `check_win`: the answer's letters and the correct guesses are the
        same set. */
    function CheckWin(): (r: bool)
      reads this
      ensures r <==> forall c :: c in answer <==> c in correct
    {
      Letters(answer) == Letters(correct)
    }

    /** The two lists never share a letter. */
    lemma Disjoint()
      requires Valid()
      ensures forall c :: !(c in correct && c in incorrect)
    {
    }

    /** Since only answer letters are ever correct, the round is won
        exactly when every letter of the answer has been guessed, and it
        takes at most as many correct guesses as the answer has distinct
        letters. */
    lemma WinMeansAllGuessed()
      requires Valid()
      ensures CheckWin() <==> forall c :: c in answer ==> c in correct
      ensures |correct| <= |Letters(answer)|
    {
      DistinctCount(correct);
      assert Letters(correct) <= Letters(answer);
      SubsetCard(Letters(correct), Letters(answer));
    }

    /** One pass of the game loop over the next input line (`None` at end
        of input) and, when the round ends, the reply to "Play again?".
        A command is answered from the command table; a line that is not
        one new letter changes nothing; a new letter joins exactly one of
        the lists, then the round is won, lost, or goes to the next turn. */
    method DoLoop(line: Option<string>, reply: Option<string>) returns (code: GameCode)
      requires Valid()
      modifies this
      ensures Valid()
      ensures line.None? ==> code == Over
      ensures line.Some? && IsCommand(GuessOf(line.value)) ==>
                code == CommandCode(AsciiLower(GuessOf(line.value)))
      ensures (line.Some? && !IsCommand(GuessOf(line.value))
               && !Fresh(GuessOf(line.value), old(correct), old(incorrect))) ==> code == Ongoing
      ensures (line.None? || IsCommand(GuessOf(line.value))
               || !Fresh(GuessOf(line.value), old(correct), old(incorrect))) ==>
                turn == old(turn) && correct == old(correct) && incorrect == old(incorrect)
      ensures (line.Some? && !IsCommand(GuessOf(line.value))
               && Fresh(GuessOf(line.value), old(correct), old(incorrect))) ==>
                var c := GuessOf(line.value)[0];
                && (c in answer ==> correct == old(correct) + [c] && incorrect == old(incorrect))
                && (c !in answer ==> incorrect == old(incorrect) + [c] && correct == old(correct))
                && var ended := CheckWin() || |incorrect| == HANGMAN_GUESS_SIZE;
                   && turn == old(turn) + (if ended then 0 else 1)
                   && code == (if ended then PlayAgain(reply) else Ongoing)
    {
      if line.None? {
        return Over;
      }
      var guess := GuessOf(line.value);
      if IsCommand(guess) {
        return CommandCode(AsciiLower(guess));
      }
      if |guess| != 1 {
        return Ongoing;
      }
      var letter := guess[0];
      if !IsAsciiAlphabetic(letter) {
        return Ongoing;
      }
      if letter in incorrect || letter in correct {
        return Ongoing;
      }
      assert IsAsciiUpper(letter);
      if letter in answer {
        correct := correct + [letter];
      } else {
        incorrect := incorrect + [letter];
      }
      if CheckWin() {
        return PlayAgain(reply);
      } else if |incorrect| == HANGMAN_GUESS_SIZE {
        return PlayAgain(reply);
      }
      turn := turn + 1;
      return Ongoing;
    }
  }
}
