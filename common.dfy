/** Definitions shared by the games: difficulty, the codes a game loop
    returns, optional values, and the ASCII string operations the games
    use on their input lines. */
module Common {

  datatype Option<T> = None | Some(value: T)

  datatype Difficulty = Easy | Medium | Hard

  /** The command-line arguments a game is built from (the game name and
      the timer are not part of this model). */
  class Args {
    var guesses: Option<int>
    var letters: Option<int>
    var difficulty: Option<Difficulty>

    constructor (guesses: Option<int>, letters: Option<int>, difficulty: Option<Difficulty>)
      ensures this.guesses == guesses && this.letters == letters && this.difficulty == difficulty
    {
      this.guesses := guesses;
      this.letters := letters;
      this.difficulty := difficulty;
    }
  }

  /** What one iteration of a game loop tells the outer driver:
      keep going, start a fresh round, or stop. */
  datatype GameCode = Ongoing | Restart | Over

  const QUIT_ALIASES: set<string> := {"!quit", "!leave", "!exit", "!q"}
  const RESTART_ALIASES: set<string> := {"!restart", "!next", "!reset", "!r"}
  const HINT_ALIASES: set<string> := {"!hint", "!h"}

  /** A line starting with '!' is a command to the game loop, not a guess. */
  predicate IsCommand(line: string) {
    |line| > 0 && line[0] == '!'
  }

  /** No element occurs twice. */
  predicate NoRepeats<T(==)>(s: seq<T>) {
    forall i, j :: 0 <= i < j < |s| ==> s[i] != s[j]
  }

  /** The command table shared by Hangman and Wordle: the whole
      (lower-cased) line is matched against the aliases. */
  function CommandCode(cmd: string): (code: GameCode)
    ensures code == Over <==> cmd in QUIT_ALIASES
    ensures code == Restart <==> cmd in RESTART_ALIASES
    ensures cmd in HINT_ALIASES ==> code == Ongoing
  {
    if cmd in HINT_ALIASES then Ongoing
    else if cmd in RESTART_ALIASES then Restart
    else if cmd in QUIT_ALIASES then Over
    else Ongoing
  }

  /** The answer to a "Play again? (y/n)" prompt: only a line that is
      exactly `Y` or `y` restarts; anything else, or end of input, stops. */
  function PlayAgain(reply: Option<string>): (code: GameCode)
    ensures code != Ongoing
    ensures code == Restart <==> reply == Some("Y") || reply == Some("y")
  {
    match reply
    case None => Over
    case Some(s) => if s == "Y" || s == "y" then Restart else Over
  }

  // ASCII character classes and case mapping.

  predicate IsAsciiWhitespace(c: char) {
    c == ' ' || c == '\t' || c == '\n' || c == '\r' || c as int == 12
  }

  predicate IsAsciiUpper(c: char) { 'A' <= c <= 'Z' }
  predicate IsAsciiLower(c: char) { 'a' <= c <= 'z' }
  predicate IsAsciiAlphabetic(c: char) { IsAsciiUpper(c) || IsAsciiLower(c) }

  function UpperChar(c: char): (r: char)
    ensures IsAsciiLower(c) ==> IsAsciiUpper(r)
    ensures !IsAsciiLower(c) ==> r == c
  {
    if IsAsciiLower(c) then (c as int - 32) as char else c
  }

  function LowerChar(c: char): (r: char)
    ensures IsAsciiUpper(c) ==> IsAsciiLower(r)
    ensures !IsAsciiUpper(c) ==> r == c
  {
    if IsAsciiUpper(c) then (c as int + 32) as char else c
  }

  /** `to_ascii_uppercase`: maps `a`..`z` to `A`..`Z`, keeps every other character. */
  function AsciiUpper(s: string): (r: string)
    ensures |r| == |s|
    ensures forall i :: 0 <= i < |s| ==> r[i] == UpperChar(s[i])
  {
    if s == [] then [] else [UpperChar(s[0])] + AsciiUpper(s[1..])
  }

  /** `to_ascii_lowercase`: maps `A`..`Z` to `a`..`z`, keeps every other character. */
  function AsciiLower(s: string): (r: string)
    ensures |r| == |s|
    ensures forall i :: 0 <= i < |s| ==> r[i] == LowerChar(s[i])
  {
    if s == [] then [] else [LowerChar(s[0])] + AsciiLower(s[1..])
  }

  /** `str::contains` with a string pattern: `sub` occurs in `s` at some offset. */
  predicate ContainsStr(s: string, sub: string) {
    exists i :: 0 <= i <= |s| - |sub| && OccursAt(s, sub, i)
  }

  predicate OccursAt(s: string, sub: string, i: int) {
    0 <= i <= |s| - |sub| && s[i..i + |sub|] == sub
  }

  /** Every string contains itself. */
  lemma ContainsSelf(s: string)
    ensures ContainsStr(s, s)
  {
    assert OccursAt(s, s, 0);
  }

  /** For two strings of the same length, substring containment is equality. */
  lemma ContainsSameLength(s: string, sub: string)
    requires |s| == |sub|
    ensures ContainsStr(s, sub) <==> s == sub
  {
    if s == sub {
      assert OccursAt(s, sub, 0);
    }
    if ContainsStr(s, sub) {
      var i :| 0 <= i <= |s| - |sub| && OccursAt(s, sub, i);
      assert i == 0;
      assert s[0..|s|] == s;
    }
  }

  // Counting characters.

  function Count(m: map<char, nat>, c: char): nat {
    if c in m then m[c] else 0
  }

  /** The number of occurrences of each character of s, counted one
      character at a time into a map (`*map.entry(c).or_insert(0) += 1`). */
  method CountChars(s: string) returns (m: map<char, nat>)
    ensures forall c :: Count(m, c) == multiset(s)[c]
    ensures forall c :: c in m <==> c in s
  {
    m := map[];
    for i := 0 to |s|
      invariant forall c :: Count(m, c) == multiset(s[..i])[c]
      invariant forall c :: c in m <==> c in s[..i]
    {
      var c := s[i];
      var n := if c in m then m[c] else 0;
      m := m[c := n + 1];
      assert s[..i + 1] == s[..i] + [c];
    }
    assert s[..|s|] == s;
  }

  // Cardinality of finite sets.

  lemma SubsetCard<T>(a: set<T>, b: set<T>)
    requires a <= b
    ensures |a| <= |b|
  {
    assert b == a + (b - a);
  }

  lemma StrictSubsetCard<T>(a: set<T>, b: set<T>, e: T)
    requires a <= b && e in b && e !in a
    ensures |a| < |b|
  {
    assert b == a + (b - a);
    assert e in b - a;
  }
}
