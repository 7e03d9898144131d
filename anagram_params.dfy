/** The anagram game's parameters: which word lengths a round uses, and
    for each length how many words the scramble must admit before the
    round is accepted, by difficulty. */
module AnagramParams {
  import opened Common

  /** A minimum word count for each difficulty, Easy first. */
  type Entry = (nat, nat, nat)

  datatype Params = Params(lo: nat, hi: nat, difficulty: Difficulty, entryAmounts: map<nat, Entry>)

  /** The word lengths of each difficulty, as an inclusive range. */
  function Range(d: Difficulty): (r: (nat, nat))
    ensures 4 <= r.0 <= r.1 <= 8
    ensures r.1 - r.0 == (if d == Hard then 3 else 2)
  {
    match d
    case Easy => (4, 6)
    case Medium => (5, 7)
    case Hard => (5, 8)
  }

  /** The fixed minimum table; every range stays inside 4..8, so the
      source's panic on any other length is unreachable. Each difficulty
      asks for words exactly at the lengths of its own range. */
  function Table(i: nat): (e: Entry)
    requires 4 <= i <= 8
    ensures e.0 > 0 <==> Range(Easy).0 <= i <= Range(Easy).1
    ensures e.1 > 0 <==> Range(Medium).0 <= i <= Range(Medium).1
    ensures e.2 > 0 <==> Range(Hard).0 <= i <= Range(Hard).1
  {
    match i
    case 4 => (3, 0, 0)
    case 5 => (2, 4, 5)
    case 6 => (1, 3, 4)
    case 7 => (0, 2, 3)
    case 8 => (0, 0, 2)
  }

  /** The entry of `letters` selected by difficulty. The source looks the
      length up with `expect`, so the length must be in the map. */
  function EntryMin(p: Params, letters: nat): (n: nat)
    requires letters in p.entryAmounts
    ensures p.difficulty == Easy ==> n == p.entryAmounts[letters].0
    ensures p.difficulty == Medium ==> n == p.entryAmounts[letters].1
    ensures p.difficulty == Hard ==> n == p.entryAmounts[letters].2
  {
    var e := p.entryAmounts[letters];
    match p.difficulty
    case Easy => e.0
    case Medium => e.1
    case Hard => e.2
  }

  /** The map filled by the loop over `lo..=hi`. */
  method FillEntries(lo: nat, hi: nat) returns (m: map<nat, Entry>)
    requires 4 <= lo && hi <= 8
    ensures forall i :: i in m <==> lo <= i <= hi
    ensures forall i :: lo <= i <= hi ==> m[i] == Table(i)
  {
    m := map[];
    var i := lo;
    while i <= hi
      invariant lo <= i <= hi + 1 || (i == lo && lo > hi)
      invariant forall k :: k in m <==> lo <= k < i
      invariant forall k :: lo <= k < i ==> m[k] == Table(k)
    {
      m := m[i := Table(i)];
      i := i + 1;
    }
  }

  /** The parameters of a round at difficulty `d`. */
  method New(d: Difficulty) returns (p: Params)
    ensures (p.lo, p.hi) == Range(d) && p.difficulty == d
    ensures forall i :: i in p.entryAmounts <==> p.lo <= i <= p.hi
    ensures forall i :: p.lo <= i <= p.hi ==> p.entryAmounts[i] == Table(i)
  {
    var (lo, hi) := Range(d);
    var m := FillEntries(lo, hi);
    p := Params(lo, hi, d, m);
  }

  /** Parameters laid out as `New` lays them out. */
  ghost predicate Standard(p: Params) {
    && (p.lo, p.hi) == Range(p.difficulty)
    && (forall i :: i in p.entryAmounts <==> p.lo <= i <= p.hi)
    && forall i :: p.lo <= i <= p.hi ==> p.entryAmounts[i] == Table(i)
  }

  /** In a standard round every length of the range has a minimum, the
      minimum is positive, and longer words are required strictly less
      often than shorter ones. */
  lemma StandardMinimums(p: Params, i: nat, j: nat)
    requires Standard(p) && p.lo <= i < j <= p.hi
    ensures i in p.entryAmounts && j in p.entryAmounts
    ensures 0 < EntryMin(p, j) < EntryMin(p, i)
  {
  }

  /** Every length of the range has an entry: what `entry_min` needs of
      each length a round asks about. */
  predicate Covers(p: Params) {
    forall i :: p.lo <= i <= p.hi ==> i in p.entryAmounts
  }

  lemma StandardCovers(p: Params)
    requires Standard(p)
    ensures Covers(p)
  {
  }

  /** A length outside the range has no entry, so asking for its minimum
      is the source's `expect` failure. */
  lemma OutsideRange(p: Params, letters: nat)
    requires Standard(p) && (letters < p.lo || letters > p.hi)
    ensures letters !in p.entryAmounts
  {
  }
}
