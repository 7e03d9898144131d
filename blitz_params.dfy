/** The second variant of the anagram parameters, with a blitz mode: when
    both a guess count and a word length are given on the command line,
    the round uses that single length and requires that many words. */
module BlitzParams {
  import opened Common
  import opened AnagramParams

  const TWO_POW_31: int := 0x8000_0000
  const TWO_POW_64: int := 0x1_0000_0000_0000_0000

  predicate IsI32(v: int) { -TWO_POW_31 <= v < TWO_POW_31 }

  /** `v as usize` on a 32-bit signed value, with `usize` 64 bits wide:
      negative values wrap around. */
  function AsUsize(v: int): (u: nat)
    requires IsI32(v)
    ensures u < TWO_POW_64
    ensures u % TWO_POW_64 == v % TWO_POW_64
    ensures v >= 0 ==> u == v
  {
    if v >= 0 then v else v + TWO_POW_64
  }

  /** Blitz mode when both numbers are given, else the standard round. */
  method NewBlitz(d: Difficulty, guesses: Option<int>, letters: Option<int>) returns (p: Params)
    requires guesses.Some? ==> IsI32(guesses.value)
    requires letters.Some? ==> IsI32(letters.value)
    ensures guesses.Some? && letters.Some? ==>
              var l := AsUsize(letters.value);
              p == Params(l, l, Easy, map[l := (AsUsize(guesses.value), 0, 0)])
    ensures guesses.None? || letters.None? ==> Standard(p) && p.difficulty == d
  {
    if guesses.Some? && letters.Some? {
      var l := AsUsize(letters.value);
      var m := map[l := (AsUsize(guesses.value), 0, 0)];
      return Params(l, l, Easy, m);
    }
    p := New(d);
  }

  /** A blitz round's only length requires exactly the given number of words. */
  lemma BlitzMinimum(g: int, l: int, p: Params)
    requires IsI32(g) && IsI32(l)
    requires p == Params(AsUsize(l), AsUsize(l), Easy, map[AsUsize(l) := (AsUsize(g), 0, 0)])
    ensures p.entryAmounts.Keys == {p.lo} && p.lo == p.hi
    ensures EntryMin(p, AsUsize(l)) == AsUsize(g)
    ensures g >= 0 ==> EntryMin(p, AsUsize(l)) == g
  {
  }
}
