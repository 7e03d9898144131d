/** The colouring of a Wordle row: a letter in its answer position is
    green; the other letters are yellow while the answer still has an
    unclaimed copy of that letter (copies claimed first by the greens, then
    by earlier yellows, left to right), and plain otherwise. */
module WordleDisplay {
  import opened Common

  datatype Mark = Green | Yellow | Plain

  /** Position i of the guess holds the answer's letter at i. */
  predicate GreenAt(guess: string, answer: string, i: nat)
    requires i < |guess|
  {
    i < |answer| && guess[i] == answer[i]
  }

  /** The green positions among the first n that hold c. */
  function GreenCount(guess: string, answer: string, c: char, n: nat): nat
    requires n <= |guess|
  {
    if n == 0 then 0
    else GreenCount(guess, answer, c, n - 1) + (if GreenAt(guess, answer, n - 1) && guess[n - 1] == c then 1 else 0)
  }

  /** The positions of the marks (a prefix of the guess) marked m that hold c. */
  function Tally(marks: seq<Mark>, guess: string, m: Mark, c: char): nat
    requires |marks| <= |guess|
  {
    if marks == [] then 0
    else
      var n := |marks| - 1;
      Tally(marks[..n], guess, m, c) + (if marks[n] == m && guess[n] == c then 1 else 0)
  }

  /** The copies of c the answer still offers after the greens and the
      yellows among `prev`. */
  function Remaining(guess: string, answer: string, prev: seq<Mark>, c: char): int
    requires |prev| <= |guess|
  {
    multiset(answer)[c] - GreenCount(guess, answer, c, |guess|) - Tally(prev, guess, Yellow, c)
  }

  /** The marks of the first n letters. */
  function Marks(guess: string, answer: string, n: nat): (m: seq<Mark>)
    requires n <= |guess|
    ensures |m| == n
  {
    if n == 0 then []
    else
      var prev := Marks(guess, answer, n - 1);
      var i := n - 1;
      prev + [if GreenAt(guess, answer, i) then Green
              else if Remaining(guess, answer, prev, guess[i]) > 0 then Yellow
              else Plain]
  }

  /** The colouring of a whole row. */
  function Colouring(guess: string, answer: string): (m: seq<Mark>)
    ensures |m| == |guess|
  {
    Marks(guess, answer, |guess|)
  }

  // ---------------------------------------------------------------------
  // The two passes

  /** The i-th character of the answer, if it has one. */
  function Nth(s: string, i: nat): Option<char> {
    if i < |s| then Some(s[i]) else None
  }

  /** The greens can never claim more copies of a letter than the answer's
      first positions hold. */
  lemma {:induction false} GreenBound(guess: string, answer: string, c: char, n: nat)
    requires n <= |guess|
    ensures GreenCount(guess, answer, c, n) <= multiset(answer[..if n < |answer| then n else |answer|])[c]
  {
    if n > 0 {
      GreenBound(guess, answer, c, n - 1);
      if n - 1 < |answer| {
        assert answer[..n] == answer[..n - 1] + [answer[n - 1]];
      }
    }
  }

  /** The greens never claim more copies of a letter than the answer has. */
  lemma GreenFits(guess: string, answer: string, c: char, n: nat)
    requires n <= |guess|
    ensures GreenCount(guess, answer, c, n) <= multiset(answer)[c]
  {
    GreenBound(guess, answer, c, n);
    var k := if n < |answer| then n else |answer|;
    assert answer == answer[..k] + answer[k..];
  }

  /** First pass: each green takes its letter from the counts. */
  method MarkGreens(guess: string, answer: string) returns (correctness: seq<bool>, left: map<char, nat>)
    ensures |correctness| == |guess|
    ensures forall i :: 0 <= i < |guess| ==> correctness[i] == GreenAt(guess, answer, i)
    ensures forall c :: Count(left, c) == multiset(answer)[c] - GreenCount(guess, answer, c, |guess|)
  {
    left := CountChars(answer);
    correctness := seq(|guess|, _ => false);
    for i := 0 to |guess|
      invariant |correctness| == |guess|
      invariant forall j :: 0 <= j < |guess| ==> correctness[j] == (j < i && GreenAt(guess, answer, j))
      invariant forall c :: Count(left, c) + GreenCount(guess, answer, c, i) == multiset(answer)[c]
    {
      var c := guess[i];
      if Nth(answer, i) == Some(c) {
        correctness := correctness[i := true];
        GreenFits(guess, answer, c, i + 1);
        left := left[c := Count(left, c) - 1];
      }
    }
  }

  /** Second pass: a non-green letter is yellow while its count is
      positive, and each yellow takes one from the count. */
  method PaintRow(guess: string, answer: string) returns (marks: seq<Mark>)
    ensures marks == Colouring(guess, answer)
  {
    var correctness: seq<bool>, left: map<char, nat> := MarkGreens(guess, answer);
    marks := [];
    for i := 0 to |guess|
      invariant marks == Marks(guess, answer, i)
      invariant forall c :: Count(left, c) == Remaining(guess, answer, marks, c)
    {
      var c := guess[i];
      ghost var prev := marks;
      if correctness[i] {
        marks := marks + [Green];
      } else if Count(left, c) > 0 {
        marks := marks + [Yellow];
        left := left[c := Count(left, c) - 1];
      } else {
        marks := marks + [Plain];
      }
      assert marks[..i] == prev;
    }
  }

  // ---------------------------------------------------------------------
  // What the colouring promises

  lemma {:induction false} MarksPrefix(guess: string, answer: string, k: nat, n: nat)
    requires k <= n <= |guess|
    ensures Marks(guess, answer, n)[..k] == Marks(guess, answer, k)
    decreases n
  {
    if k < n {
      MarksPrefix(guess, answer, k, n - 1);
      assert Marks(guess, answer, n)[..n - 1] == Marks(guess, answer, n - 1);
    }
  }

  /** Position i is marked by the rule applied to the marks before it:
      green exactly when it holds the answer's letter, else yellow exactly
      when an unclaimed copy of its letter remains. */
  lemma MarkRule(guess: string, answer: string, i: nat)
    requires i < |guess|
    ensures var m := Colouring(guess, answer);
      && (m[i] == Green <==> GreenAt(guess, answer, i))
      && (m[i] == Yellow <==> !GreenAt(guess, answer, i) && Remaining(guess, answer, m[..i], guess[i]) > 0)
  {
    MarksPrefix(guess, answer, i + 1, |guess|);
    MarksPrefix(guess, answer, i, |guess|);
    var m := Colouring(guess, answer);
    assert m[..i + 1][i] == m[i];
    assert m[..i + 1][..i] == m[..i];
  }

  lemma {:induction false} GreenTally(guess: string, answer: string, c: char, n: nat)
    requires n <= |guess|
    ensures Tally(Marks(guess, answer, n), guess, Green, c) == GreenCount(guess, answer, c, n)
  {
    if n > 0 {
      GreenTally(guess, answer, c, n - 1);
      var m := Marks(guess, answer, n);
      assert m[..n - 1] == Marks(guess, answer, n - 1);
    }
  }

  lemma {:induction false} RemainingNonNegative(guess: string, answer: string, c: char, n: nat)
    requires n <= |guess|
    ensures Remaining(guess, answer, Marks(guess, answer, n), c) >= 0
  {
    if n == 0 {
      GreenFits(guess, answer, c, |guess|);
    } else {
      RemainingNonNegative(guess, answer, c, n - 1);
      var m := Marks(guess, answer, n);
      assert m[..n - 1] == Marks(guess, answer, n - 1);
    }
  }

  /** For every letter, greens and yellows together never mark more copies
      than the answer holds; the remaining count never drops below zero. */
  lemma ClaimsBounded(guess: string, answer: string, c: char)
    ensures var m := Colouring(guess, answer);
      Tally(m, guess, Green, c) + Tally(m, guess, Yellow, c) <= multiset(answer)[c]
  {
    GreenTally(guess, answer, c, |guess|);
    RemainingNonNegative(guess, answer, c, |guess|);
  }

  /** For a guess as long as the answer, the row is all green exactly when
      the guess is the answer. */
  lemma AllGreen(guess: string, answer: string)
    requires |guess| == |answer|
    ensures (forall i :: 0 <= i < |guess| ==> Colouring(guess, answer)[i] == Green) <==> guess == answer
  {
    forall i | 0 <= i < |guess| ensures Colouring(guess, answer)[i] == Green <==> guess[i] == answer[i] {
      MarkRule(guess, answer, i);
    }
  }
}
