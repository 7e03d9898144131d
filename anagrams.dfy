/** The anagram round: the scramble keys of a word list (each word's
    letters in sorted order), the words a scramble can spell grouped by
    length, the acceptance test of a round against its parameters, and
    the word check of a finished round. */
module Anagrams {
  import opened Common
  import opened TextInput
  import opened AnagramParams

  // ---------------------------------------------------------------------
  // Sorting the letters of a word

  predicate Sorted(s: string) {
    forall i, j :: 0 <= i < j < |s| ==> s[i] <= s[j]
  }

  function Insert(c: char, s: string): (r: string)
    requires Sorted(s)
    ensures Sorted(r) && multiset(r) == multiset(s) + multiset{c}
  {
    if s == [] || c <= s[0] then [c] + s
    else
      var t := Insert(c, s[1..]);
      InsertBehind(c, s, t);
      [s[0]] + t
  }

  /** The least letter of a sorted string comes first. */
  lemma SortedHead(s: string, x: char)
    requires Sorted(s) && x in multiset(s)
    ensures s[0] <= x
  {
    var k :| 0 <= k < |s| && s[k] == x;
  }

  /** Putting a letter below all of a sorted string in front keeps it sorted. */
  lemma InsertBehind(c: char, s: string, t: string)
    requires Sorted(s) && s != [] && s[0] < c
    requires Sorted(t) && multiset(t) == multiset(s[1..]) + multiset{c}
    ensures Sorted([s[0]] + t) && multiset([s[0]] + t) == multiset(s) + multiset{c}
  {
    assert s == [s[0]] + s[1..];
    forall k | 0 <= k < |t| ensures s[0] <= t[k] {
      assert t[k] in multiset(t);
      if t[k] != c {
        SortedHead(s, t[k]);
      }
    }
  }

  /** `sort` on the letters of a word: the same letters, in ascending order. */
  function Sort(s: string): (r: string)
    ensures Sorted(r) && multiset(r) == multiset(s)
  {
    if s == [] then [] else
      assert s == [s[0]] + s[1..];
      Insert(s[0], Sort(s[1..]))
  }

  /** A sorted arrangement of a bag of letters is unique. */
  lemma {:induction false} SortedUnique(a: string, b: string)
    requires Sorted(a) && Sorted(b) && multiset(a) == multiset(b)
    ensures a == b
    decreases |a|
  {
    if a != [] {
      assert a[0] in multiset(a) && b[0] in multiset(b);
      SortedHead(a, b[0]);
      SortedHead(b, a[0]);
      assert a == [a[0]] + a[1..];
      assert b == [b[0]] + b[1..];
      Cancel(a[0], multiset(a[1..]), multiset(b[1..]));
      SortedUnique(a[1..], b[1..]);
    }
  }

  lemma Cancel<T>(x: T, p: multiset<T>, q: multiset<T>)
    requires multiset{x} + p == multiset{x} + q
    ensures p == q
  {
    assert forall e :: p[e] == (multiset{x} + p)[e] - multiset{x}[e];
    assert forall e :: q[e] == (multiset{x} + q)[e] - multiset{x}[e];
  }

  /** Two arrangements of the same letters have the same key. */
  lemma SameLettersSameKey(v: string, w: string)
    requires multiset(v) == multiset(w)
    ensures Sort(v) == Sort(w)
  {
    SortedUnique(Sort(v), Sort(w));
  }

  // ---------------------------------------------------------------------
  // Scramble keys

  /** k is the key of some listed word of length `size`. */
  ghost predicate IsKey(ws: seq<string>, size: nat, k: string) {
    exists j :: KeyAt(ws, size, k, j)
  }

  /** k is the key of the j-th word, which has length `size`. */
  ghost predicate KeyAt(ws: seq<string>, size: nat, k: string, j: int) {
    0 <= j < |ws| && |ws[j]| == size && k == Sort(ws[j])
  }

  /** The keys of the words of length `size`, each once, in order of first
      appearance. */
  function Keys(ws: seq<string>, size: nat): seq<string>
  {
    if ws == [] then []
    else
      var ks := Keys(ws[..|ws| - 1], size);
      var w := ws[|ws| - 1];
      if |w| == size && Sort(w) !in ks then ks + [Sort(w)] else ks
  }

  /** The keys are distinct and are exactly the keys of the words of
      length `size`. */
  lemma {:induction false} KeysMeaning(ws: seq<string>, size: nat)
    ensures NoRepeats(Keys(ws, size))
    ensures forall k :: k in Keys(ws, size) <==> IsKey(ws, size, k)
    decreases |ws|
  {
    if ws != [] {
      var front := ws[..|ws| - 1];
      var w := ws[|ws| - 1];
      var ks := Keys(front, size);
      KeysMeaning(front, size);
      forall k ensures k in Keys(ws, size) <==> IsKey(ws, size, k) {
        IsKeySnoc(ws, size, k);
      }
      if |w| == size && Sort(w) !in ks {
        NoRepeatsSnoc(ks, Sort(w));
      }
    }
  }

  /** The keys of a list with one more word. */
  lemma IsKeySnoc(ws: seq<string>, size: nat, k: string)
    requires ws != []
    ensures IsKey(ws, size, k) <==> IsKey(ws[..|ws| - 1], size, k) || KeyAt(ws, size, k, |ws| - 1)
  {
    if IsKey(ws[..|ws| - 1], size, k) {
      KeyFromFront(ws, size, k);
    }
    if IsKey(ws, size, k) {
      KeyToFront(ws, size, k);
    }
  }

  lemma KeyFromFront(ws: seq<string>, size: nat, k: string)
    requires ws != [] && IsKey(ws[..|ws| - 1], size, k)
    ensures IsKey(ws, size, k)
  {
    var front := ws[..|ws| - 1];
    var j :| KeyAt(front, size, k, j);
    assert ws[j] == front[j];
    assert KeyAt(ws, size, k, j);
  }

  lemma KeyToFront(ws: seq<string>, size: nat, k: string)
    requires ws != [] && IsKey(ws, size, k)
    ensures IsKey(ws[..|ws| - 1], size, k) || KeyAt(ws, size, k, |ws| - 1)
  {
    var front := ws[..|ws| - 1];
    var j :| KeyAt(ws, size, k, j);
    if j < |front| {
      assert front[j] == ws[j];
      assert KeyAt(front, size, k, j);
    }
  }

  lemma NoRepeatsSnoc(ks: seq<string>, k: string)
    requires NoRepeats(ks) && k !in ks
    ensures NoRepeats(ks + [k])
  {
  }

  /** `scramble_keys`: the keys of the list's words of length `size`, in
      order of first appearance; by `KeysMeaning` they are distinct and
      are exactly the keys of such words. */
  method ScrambleKeys(list: string, size: nat) returns (keys: seq<string>)
    ensures keys == Keys(Tokens(list), size)
    ensures NoRepeats(keys)
    ensures forall k :: k in keys <==> IsKey(Tokens(list), size, k)
  {
    var ws := Tokens(list);
    keys := [];
    for i := 0 to |ws|
      invariant keys == Keys(ws[..i], size)
    {
      assert ws[..i + 1][..i] == ws[..i];
      if |ws[i]| == size {
        var k := Sort(ws[i]);
        if k !in keys {
          keys := keys + [k];
        }
      }
    }
    assert ws[..|ws|] == ws;
    KeysMeaning(ws, size);
  }

  /** Every key is a sorted word of length `size`, and a word a key spells
      exactly is filed under that key and no other. */
  lemma KeyShape(ws: seq<string>, size: nat, k: string, w: string)
    requires IsKey(ws, size, k)
    ensures Sorted(k) && |k| == size
    ensures multiset(w) == multiset(k) ==> Sort(w) == k
  {
    var j :| KeyAt(ws, size, k, j);
    assert |multiset(k)| == |multiset(ws[j])|;
    if multiset(w) == multiset(k) {
      SortedUnique(Sort(w), k);
    }
  }

  // ---------------------------------------------------------------------
  // Words spelled by a scramble

  /** The letters of w are a sub-bag of the scramble's letters. */
  predicate Spellable(w: string, bag: multiset<char>) {
    multiset(w) <= bag
  }

  /** The listed words of length n the bag can spell, in list order. */
  function Filed(ws: seq<string>, bag: multiset<char>, n: nat): (r: seq<string>)
    ensures forall i :: 0 <= i < |r| ==> |r[i]| == n && Spellable(r[i], bag) && r[i] in ws
  {
    if ws == [] then []
    else
      var w := ws[|ws| - 1];
      var r0 := Filed(ws[..|ws| - 1], bag, n);
      assert forall i :: 0 <= i < |r0| ==> r0[i] in ws by {
        forall i | 0 <= i < |r0| ensures r0[i] in ws {
          assert r0[i] in ws[..|ws| - 1];
        }
      }
      r0 + (if |w| == n && Spellable(w, bag) then [w] else [])
  }

  /** Every listed word of the right length that the bag spells is filed. */
  lemma {:induction false} FiledComplete(ws: seq<string>, bag: multiset<char>, w: string)
    requires w in ws && Spellable(w, bag)
    ensures w in Filed(ws, bag, |w|)
    decreases |ws|
  {
    if ws[|ws| - 1] != w {
      assert w in ws[..|ws| - 1] by {
        var i :| 0 <= i < |ws| && ws[i] == w;
        assert ws[..|ws| - 1][i] == w;
      }
      FiledComplete(ws[..|ws| - 1], bag, w);
    }
  }

  /** The grouping a scramble's word map has: the keys are the lengths
      with some spelled word, and each maps to those words in list order. */
  ghost predicate Grouped(m: map<nat, seq<string>>, ws: seq<string>, bag: multiset<char>) {
    forall n :: (n in m <==> Filed(ws, bag, n) != []) && (n in m ==> m[n] == Filed(ws, bag, n))
  }

  /** Filing one more word: its length's list grows by it when it is
      spelled, and nothing else changes. */
  lemma GroupStep(m0: map<nat, seq<string>>, m1: map<nat, seq<string>>, ws: seq<string>, i: nat, bag: multiset<char>)
    requires i < |ws| && Grouped(m0, ws[..i], bag)
    requires var w := ws[i];
      m1 == if Spellable(w, bag) then m0[|w| := (if |w| in m0 then m0[|w|] else []) + [w]] else m0
    ensures Grouped(m1, ws[..i + 1], bag)
  {
    var w := ws[i];
    forall n ensures (n in m1 <==> Filed(ws[..i + 1], bag, n) != []) && (n in m1 ==> m1[n] == Filed(ws[..i + 1], bag, n)) {
      FiledSnoc(ws, i, bag, n);
      assert n in m0 <==> Filed(ws[..i], bag, n) != [];
      assert n in m0 ==> m0[n] == Filed(ws[..i], bag, n);
    }
  }

  lemma FiledSnoc(ws: seq<string>, i: nat, bag: multiset<char>, n: nat)
    requires i < |ws|
    ensures Filed(ws[..i + 1], bag, n) == Filed(ws[..i], bag, n) + (if |ws[i]| == n && Spellable(ws[i], bag) then [ws[i]] else [])
  {
    assert ws[..i + 1][..i] == ws[..i];
    assert ws[..i + 1][i] == ws[i];
  }

  /** The word map of a scramble, built from the list directly. */
  ghost function WordMap(ws: seq<string>, bag: multiset<char>): (m: map<nat, seq<string>>)
    ensures Grouped(m, ws, bag)
  {
    var lens: set<nat> := set w | w in ws :: |w|;
    FiledLengths(ws, bag, lens);
    map n | n in lens && Filed(ws, bag, n) != [] :: Filed(ws, bag, n)
  }

  lemma FiledLengths(ws: seq<string>, bag: multiset<char>, lens: set<nat>)
    requires lens == set w | w in ws :: |w|
    ensures forall n: nat :: Filed(ws, bag, n) != [] ==> n in lens
  {
    forall n: nat | Filed(ws, bag, n) != [] ensures n in lens {
      var w := Filed(ws, bag, n)[0];
      assert w in ws && |w| == n;
    }
  }

  /** The grouping determines the map: it is the word map. */
  lemma GroupedUnique(m: map<nat, seq<string>>, ws: seq<string>, bag: multiset<char>)
    requires Grouped(m, ws, bag)
    ensures m == WordMap(ws, bag)
  {
    var w := WordMap(ws, bag);
    assert forall n :: n in m <==> n in w;
  }

  /** A length present in a grouped map has at least one word. */
  lemma GroupedNonEmpty(m: map<nat, seq<string>>, ws: seq<string>, bag: multiset<char>, n: nat)
    requires Grouped(m, ws, bag) && n in m
    ensures m[n] != []
  {
    assert n in m <==> Filed(ws, bag, n) != [];
  }

  /** Whether the word can be spelled from the counts: each letter is
      taken from a copy of the counts, failing at the first letter that
      is missing or used up. */
  method CanSpell(counts: map<char, nat>, word: string) returns (ok: bool)
    ensures ok <==> forall c :: multiset(word)[c] <= Count(counts, c)
  {
    var remaining := counts;
    ghost var taken: multiset<char> := multiset{};
    var i := 0;
    while i < |word|
      invariant 0 <= i <= |word|
      invariant taken == multiset(word[..i])
      invariant forall c :: Count(remaining, c) + taken[c] == Count(counts, c)
    {
      var c := word[i];
      PrefixBag(word, i);
      if c in remaining && remaining[c] > 0 {
        TakeOne(remaining, counts, taken, c);
        remaining := remaining[c := remaining[c] - 1];
        taken := taken + multiset{c};
      } else {
        UsedUp(remaining, counts, taken, multiset(word), c);
        return false;
      }
      i := i + 1;
    }
    AllTaken(remaining, counts, taken, word);
    return true;
  }

  /** Once the whole word is taken, the counts held every letter of it. */
  lemma AllTaken(remaining: map<char, nat>, counts: map<char, nat>, taken: multiset<char>, word: string)
    requires taken == multiset(word[..|word|])
    requires forall d :: Count(remaining, d) + taken[d] == Count(counts, d)
    ensures forall c :: multiset(word)[c] <= Count(counts, c)
  {
    assert word[..|word|] == word;
  }

  lemma PrefixBag(word: string, i: int)
    requires 0 <= i < |word|
    ensures multiset(word[..i + 1]) == multiset(word[..i]) + multiset{word[i]}
    ensures multiset(word[..i + 1]) <= multiset(word)
  {
    assert word[..i + 1] == word[..i] + [word[i]];
    assert word == word[..i + 1] + word[i + 1..];
  }

  /** Taking one available letter from the counts. */
  lemma TakeOne(remaining: map<char, nat>, counts: map<char, nat>, taken: multiset<char>, c: char)
    requires forall d :: Count(remaining, d) + taken[d] == Count(counts, d)
    requires c in remaining && remaining[c] > 0
    ensures forall d :: Count(remaining[c := remaining[c] - 1], d) + (taken + multiset{c})[d] == Count(counts, d)
  {
    forall d ensures Count(remaining[c := remaining[c] - 1], d) + (taken + multiset{c})[d] == Count(counts, d) {
      assert Count(remaining, d) + taken[d] == Count(counts, d);
    }
  }

  /** A letter missing from the counts is one the word needs more of than
      the counts hold. */
  lemma UsedUp(remaining: map<char, nat>, counts: map<char, nat>, taken: multiset<char>, bag: multiset<char>, c: char)
    requires forall d :: Count(remaining, d) + taken[d] == Count(counts, d)
    requires !(c in remaining && remaining[c] > 0) && taken + multiset{c} <= bag
    ensures bag[c] > Count(counts, c)
  {
    assert Count(remaining, c) + taken[c] == Count(counts, c);
    assert (taken + multiset{c})[c] <= bag[c];
  }

  /** `words_from_scramble`: the words of the list the scramble spells,
      grouped by length. */
  method WordsFromScramble(scramble: string, input: string) returns (result: map<nat, seq<string>>)
    ensures Grouped(result, Tokens(input), multiset(scramble))
  {
    var ws := Tokens(input);
    var bag := multiset(scramble);
    var counts := CountChars(scramble);
    result := map[];
    for i := 0 to |ws|
      invariant Grouped(result, ws[..i], bag)
    {
      var w := ws[i];
      var ok := CanSpell(counts, w);
      assert ok <==> Spellable(w, bag);
      ghost var before := result;
      if ok {
        var entry := if |w| in result then result[|w|] else [];
        result := result[|w| := entry + [w]];
      }
      GroupStep(before, result, ws, i, bag);
    }
    assert ws[..|ws|] == ws;
  }

  // ---------------------------------------------------------------------
  // Accepting a round

  /** Every length of the range has at least its minimum number of words. */
  ghost predicate Accepted(words: map<nat, seq<string>>, p: Params)
    requires Covers(p)
  {
    forall i :: p.lo <= i <= p.hi ==> i in words && |words[i]| >= EntryMin(p, i)
  }

  /** `valid_anagrams`: every length of the range is present, then every
      present length of the range has enough words; other lengths are
      ignored. */
  method ValidAnagrams(words: map<nat, seq<string>>, p: Params) returns (ok: bool)
    requires Covers(p)
    ensures ok <==> Accepted(words, p)
    ensures ok ==> forall i :: p.lo <= i <= p.hi ==> i in words
  {
    var i := p.lo;
    while i <= p.hi
      invariant p.lo <= i
      invariant forall j :: p.lo <= j < i ==> j in words
    {
      if i !in words {
        MissingRejects(words, p, i);
        return false;
      }
      i := i + 1;
    }
    var ks := words.Keys;
    while ks != {}
      invariant ks <= words.Keys
      invariant forall k :: k in words && k !in ks ==> !Short(words, p, k)
      decreases ks
    {
      var k :| k in ks;
      if p.lo <= k <= p.hi && |words[k]| < EntryMin(p, k) {
        ShortRejects(words, p, k);
        return false;
      }
      ks := ks - {k};
    }
    NoneShort(words, p);
    ok := true;
  }

  /** Length `k` of the range is in the map with too few words. */
  ghost predicate Short(words: map<nat, seq<string>>, p: Params, k: nat)
    requires Covers(p)
  {
    p.lo <= k <= p.hi && k in words && |words[k]| < EntryMin(p, k)
  }

  /** Every length of the range present, none short: the round is accepted. */
  lemma NoneShort(words: map<nat, seq<string>>, p: Params)
    requires Covers(p)
    requires forall j :: p.lo <= j <= p.hi ==> j in words
    requires forall k :: k in words ==> !Short(words, p, k)
    ensures Accepted(words, p)
  {
  }

  lemma MissingRejects(words: map<nat, seq<string>>, p: Params, i: nat)
    requires Covers(p) && p.lo <= i <= p.hi && i !in words
    ensures !Accepted(words, p)
  {
  }

  /** A length of the range with too few words rejects the round. */
  lemma ShortRejects(words: map<nat, seq<string>>, p: Params, k: nat)
    requires Covers(p) && p.lo <= k <= p.hi && k in words && |words[k]| < EntryMin(p, k)
    ensures !Accepted(words, p)
  {
  }

  /** What the words stored under lengths outside the range are does not
      matter to acceptance. */
  lemma OutOfRangeIgnored(words: map<nat, seq<string>>, p: Params, n: nat, v: seq<string>)
    requires Covers(p) && (n < p.lo || n > p.hi)
    ensures Accepted(words[n := v], p) <==> Accepted(words, p)
  {
    forall i | p.lo <= i <= p.hi
      ensures (i in words[n := v] <==> i in words) && (i in words ==> words[n := v][i] == words[i])
    {
    }
  }

  // ---------------------------------------------------------------------
  // A round

  datatype Anagram = Anagram(scramble: string, words: map<nat, seq<string>>)

  /** `valid_word`: the word is listed under its own length. */
  function ValidWord(a: Anagram, w: string): (r: bool)
    ensures r ==> |w| in a.words && w in a.words[|w|]
  {
    match if |w| in a.words then Some(a.words[|w|]) else None
    case Some(e) => w in e
    case None => false
  }

  /** In a round built from a list, a word is valid exactly when it is
      listed and spelled from the scramble's letters. */
  lemma ValidWordMeaning(a: Anagram, ws: seq<string>, w: string)
    requires Grouped(a.words, ws, multiset(a.scramble))
    ensures ValidWord(a, w) <==> w in ws && Spellable(w, multiset(a.scramble))
  {
    var bag := multiset(a.scramble);
    if w in ws && Spellable(w, bag) {
      FiledComplete(ws, bag, w);
    }
    if ValidWord(a, w) {
      assert a.words[|w|] == Filed(ws, bag, |w|);
      var i :| 0 <= i < |a.words[|w|]| && a.words[|w|][i] == w;
    }
  }

  /** `choose_multiple` over all of the letters: every letter drawn once,
      in the order the draws pick them. */
  method Shuffle(s: string, draws: seq<nat>) returns (t: string)
    ensures multiset(t) == multiset(s)
  {
    var rest := s;
    t := [];
    var k := 0;
    while rest != []
      invariant multiset(t) + multiset(rest) == multiset(s)
      decreases |rest|
    {
      var j := if k < |draws| then draws[k] % |rest| else 0;
      assert rest == rest[..j] + [rest[j]] + rest[j + 1..];
      t := t + [rest[j]];
      rest := rest[..j] + rest[j + 1..];
      k := k + 1;
    }
  }

  /** The key passes the acceptance test: the word map of its letters is
      accepted. */
  ghost predicate Passes(list: string, p: Params, key: string)
    requires Covers(p)
  {
    Accepted(WordMap(Tokens(list), multiset(key)), p)
  }

  /** The key the i-th pick names. */
  function Picked(ks: seq<string>, picks: seq<nat>, i: int): string
    requires |ks| > 0 && 0 <= i < |picks|
  {
    ks[picks[i] % |ks|]
  }

  /** None of the first n picks names a key that passes. */
  ghost predicate NonePass(list: string, p: Params, ks: seq<string>, picks: seq<nat>, n: int)
    requires Covers(p) && |ks| > 0 && n <= |picks|
  {
    forall j :: 0 <= j < n ==> !Passes(list, p, Picked(ks, picks, j))
  }

  /** The i-th pick is the first whose key passes. */
  ghost predicate FirstPass(list: string, p: Params, ks: seq<string>, picks: seq<nat>, i: int)
    requires Covers(p) && |ks| > 0
  {
    0 <= i < |picks| && Passes(list, p, Picked(ks, picks, i)) && NonePass(list, p, ks, picks, i)
  }

  /** The round `Anagram::new` makes from the picks: its scramble spells
      the key of the first pick that passes, which is a key of the list,
      and its words are that key's word map, which is accepted. */
  ghost predicate RoundOf(list: string, size: nat, p: Params, picks: seq<nat>, a: Anagram)
    requires Covers(p)
  {
    var ks := Keys(Tokens(list), size);
    && |ks| > 0
    && (exists i :: FirstPass(list, p, ks, picks, i) && Sort(a.scramble) == Picked(ks, picks, i))
    && IsKey(Tokens(list), size, Sort(a.scramble))
    && a.words == WordMap(Tokens(list), multiset(a.scramble))
    && Accepted(a.words, p)
  }

  /** No round: the list has no key, or no picked key passes. */
  ghost predicate NoRound(list: string, size: nat, p: Params, picks: seq<nat>)
    requires Covers(p)
  {
    var ks := Keys(Tokens(list), size);
    |ks| == 0 || NonePass(list, p, ks, picks, |picks|)
  }

  /** The round made from the i-th pick when it is the first to pass. */
  lemma MadeRound(list: string, size: nat, p: Params, picks: seq<nat>, i: int, scramble: string,
                  words: map<nat, seq<string>>)
    requires Covers(p) && |Keys(Tokens(list), size)| > 0 && 0 <= i < |picks|
    requires NonePass(list, p, Keys(Tokens(list), size), picks, i)
    requires var key := Picked(Keys(Tokens(list), size), picks, i);
      words == WordMap(Tokens(list), multiset(key)) && Accepted(words, p) && multiset(scramble) == multiset(key)
    ensures RoundOf(list, size, p, picks, Anagram(scramble, words))
    ensures exists w :: w in Tokens(list) && |w| == size
  {
    var ws := Tokens(list);
    var ks := Keys(ws, size);
    var key := Picked(ks, picks, i);
    KeysMeaning(ws, size);
    assert key in ks;
    KeyShape(ws, size, key, scramble);
    assert FirstPass(list, p, ks, picks, i);
    var j :| KeyAt(ws, size, key, j);
    assert ws[j] in ws;
  }

  /** A pick whose key fails extends the run of failing picks. */
  lemma NonePassStep(list: string, p: Params, ks: seq<string>, picks: seq<nat>, i: int)
    requires Covers(p) && |ks| > 0 && 0 <= i < |picks|
    requires NonePass(list, p, ks, picks, i) && !Passes(list, p, Picked(ks, picks, i))
    ensures NonePass(list, p, ks, picks, i + 1)
  {
  }

  /** With no key there is no listed word of length `size`. */
  lemma NoKeyNoWord(list: string, size: nat)
    requires |Keys(Tokens(list), size)| == 0
    ensures forall w :: w in Tokens(list) ==> |w| != size
  {
    var ws := Tokens(list);
    KeysMeaning(ws, size);
    forall w | w in ws ensures |w| != size {
      var j :| 0 <= j < |ws| && ws[j] == w;
      assert !IsKey(ws, size, Sort(w));
      assert !KeyAt(ws, size, Sort(w), j);
    }
  }

  /** `Anagram::new`: pick keys until one passes the acceptance test, then
      shuffle its letters. The random picks are indices into the key list;
      when there are no keys (the source's `expect` failure) or the picks
      are used up, there is no round. A round is made from the first
      picked key that passes; no round means no picked key passes. */
  method New(list: string, size: nat, p: Params, picks: seq<nat>, draws: seq<nat>) returns (r: Option<Anagram>)
    requires Covers(p)
    ensures (forall w :: w in Tokens(list) ==> |w| != size) ==> r.None?
    ensures r.None? ==> NoRound(list, size, p, picks)
    ensures r.Some? ==> RoundOf(list, size, p, picks, r.value)
  {
    var keys := ScrambleKeys(list, size);
    if |keys| == 0 {
      NoKeyNoWord(list, size);
      return None;
    }
    for i := 0 to |picks|
      invariant NonePass(list, p, keys, picks, i)
    {
      var key := keys[picks[i] % |keys|];
      var words := WordsFromScramble(key, list);
      GroupedUnique(words, Tokens(list), multiset(key));
      var ok := ValidAnagrams(words, p);
      if ok {
        var scramble := Shuffle(key, draws);
        MadeRound(list, size, p, picks, i, scramble, words);
        return Some(Anagram(scramble, words));
      }
      NonePassStep(list, p, keys, picks, i);
    }
    return None;
  }
}
