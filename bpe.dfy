/**
 * The merge engine behind `Tokenizer.bpe`, as pure functions: the initial
 * split of a token into symbols, its adjacent pairs, the choice of the pair
 * with the lowest merge rank, one merge pass, and the loop of passes. The
 * loops of `getPairs` and `bpe` are written as methods beside the functions
 * that specify them.
 */
module Bpe {
  import opened Wrappers
  import opened Strings

  /** The marker appended to the last symbol of every word. */
  const EndOfWord: string := "</w>"

  /** A word is a list of symbols; joined without separator they spell the token. */
  type Word = seq<string>

  /** An adjacent pair of symbols, the key of the merge-rank table. */
  type Pair = (string, string)

  /** Merge ranks: a lower rank merges first. */
  type Ranks = map<Pair, int>

  /**
   * The word `bpe` starts from: one symbol per character of the token, the
   * last one carrying the end-of-word marker; the empty token gives the
   * marker alone.
   */
  function InitialWord(token: string): (w: Word)
    ensures |w| == if |token| == 0 then 1 else |token|
    ensures forall i :: 0 <= i < |w| - 1 ==> w[i] == [token[i]]
    ensures |token| > 0 ==> w[|w| - 1] == [token[|token| - 1]] + EndOfWord
    ensures Join(w, "") == token + EndOfWord
  {
    if |token| == 0 then [EndOfWord]
    else
      var w := Characters(token[..|token| - 1]) + [[token[|token| - 1]] + EndOfWord];
      ConcatAppend(Characters(token[..|token| - 1]), [[token[|token| - 1]] + EndOfWord]);
      assert token[..|token| - 1] + [token[|token| - 1]] == token;
      w
  }

  /** The characters of `s`, one symbol each. */
  function Characters(s: string): (w: Word)
    ensures |w| == |s|
    ensures forall i :: 0 <= i < |s| ==> w[i] == [s[i]]
    ensures Join(w, "") == s
    decreases |s|
  {
    if |s| == 0 then []
    else
      ConcatCons([s[0]], Characters(s[1..]));
      assert s == [s[0]] + s[1..];
      [[s[0]]] + Characters(s[1..])
  }

  /** The adjacent pairs of a word, left to right. */
  function Pairs(w: Word): (ps: seq<Pair>)
    ensures |ps| == if |w| == 0 then 0 else |w| - 1
    ensures forall i {:trigger ps[i]} :: 0 <= i < |ps| ==> ps[i] == (w[i], w[i + 1])
  {
    if |w| <= 1 then [] else [(w[0], w[1])] + Pairs(w[1..])
  }

  /** `getPairs`: pair each symbol with the one after it. */
  method GetPairs(word: Word) returns (pairs: seq<Pair>)
    ensures pairs == Pairs(word)
  {
    pairs := [];
    if |word| == 0 {
      return;
    }
    var prev := word[0];
    var rest := word[1..];
    for k := 0 to |rest|
      invariant |pairs| == k
      invariant forall i :: 0 <= i < k ==> pairs[i] == (word[i], word[i + 1])
      invariant prev == word[k]
    {
      var sym := rest[k];
      pairs := pairs + [(prev, sym)];
      prev := sym;
    }
  }

  /**
   * `word.indexOf(x, from)`: the first position at or after `from` that
   * holds `x`, or -1.
   */
  function IndexOf(word: Word, x: string, from: nat): (j: int)
    requires from <= |word|
    ensures j == -1 || (from <= j < |word| && word[j] == x)
    ensures forall t :: from <= t < (if j == -1 then |word| else j) ==> word[t] != x
    decreases |word| - from
  {
    if from == |word| then -1
    else if word[from] == x then from
    else IndexOf(word, x, from + 1)
  }

  /**
   * The pair the inner loop of `bpe` picks: scanning left to right, a ranked
   * pair replaces the current choice when its rank is strictly lower, so the
   * first pair of lowest rank wins. None when no pair has a rank.
   */
  function MinRankPair(pairs: seq<Pair>, ranks: Ranks): (r: Option<Pair>)
    ensures r.None? <==> forall p :: p in pairs ==> p !in ranks
    ensures r.Some? ==> r.value in pairs && r.value in ranks
    ensures r.Some? ==> forall p :: p in pairs && p in ranks ==> ranks[r.value] <= ranks[p]
    decreases |pairs|
  {
    if |pairs| == 0 then None
    else
      var best := MinRankPair(pairs[..|pairs| - 1], ranks);
      var p := pairs[|pairs| - 1];
      assert pairs == pairs[..|pairs| - 1] + [p];
      if p !in ranks then best
      else if best.None? || ranks[p] < ranks[best.value] then Some(p)
      else best
  }

  /**
   * The bigram selection of `bpe`: `minRank` starts at "infinity" (None) and
   * every ranked pair with a strictly lower rank replaces `bigram`.
   */
  method SelectBigram(pairs: seq<Pair>, ranks: Ranks) returns (bigram: Option<Pair>)
    ensures bigram == MinRankPair(pairs, ranks)
  {
    bigram := None;
    var minRank: Option<int> := None;
    for k := 0 to |pairs|
      invariant bigram == MinRankPair(pairs[..k], ranks)
      invariant minRank.None? <==> bigram.None?
      invariant bigram.Some? ==> bigram.value in ranks && minRank.value == ranks[bigram.value]
    {
      assert pairs[..k + 1][..k] == pairs[..k];
      var p := pairs[k];
      if p !in ranks {
        continue;
      }
      var r := ranks[p];
      if minRank.None? || r < minRank.value {
        minRank := Some(r);
        bigram := Some(p);
      }
    }
    assert pairs[..|pairs|] == pairs;
  }

  /**
   * One merge pass: scanning left to right, every `first` directly followed
   * by `second` becomes the single symbol `first + second` and the scan
   * resumes after them; every other symbol is copied.
   */
  function MergePass(w: Word, first: string, second: string): (r: Word)
    ensures |r| <= |w|
    decreases |w|
  {
    if |w| == 0 then []
    else if |w| >= 2 && w[0] == first && w[1] == second then [first + second] + MergePass(w[2..], first, second)
    else [w[0]] + MergePass(w[1..], first, second)
  }

  /** A pass keeps the spelling: the symbols still join to the same string. */
  lemma {:induction false} MergePassSpelling(w: Word, first: string, second: string)
    ensures Join(MergePass(w, first, second), "") == Join(w, "")
    decreases |w|
  {
    if |w| >= 2 && w[0] == first && w[1] == second {
      MergePassSpelling(w[2..], first, second);
      ConcatCons(first + second, MergePass(w[2..], first, second));
      ConcatCons(w[0], w[1..]);
      ConcatCons(w[1], w[2..]);
      assert w == [w[0]] + w[1..] && w[1..] == [w[1]] + w[2..];
    } else if |w| > 0 {
      MergePassSpelling(w[1..], first, second);
      ConcatCons(w[0], MergePass(w[1..], first, second));
      ConcatCons(w[0], w[1..]);
      assert w == [w[0]] + w[1..];
    }
  }

  /** A pass over a word in which the pair occurs merges at least once, so it shortens the word. */
  lemma {:induction false} MergePassShrinks(w: Word, first: string, second: string, i: nat)
    requires i + 1 < |w| && w[i] == first && w[i + 1] == second
    ensures |MergePass(w, first, second)| < |w|
    decreases |w|
  {
    if !(w[0] == first && w[1] == second) {
      MergePassShrinks(w[1..], first, second, i - 1);
    }
  }

  /** Symbols from `i` up to `j` that are not `first` are copied as they are. */
  lemma {:induction false} MergePassSkips(word: Word, first: string, second: string, i: nat, j: nat)
    requires i <= j <= |word|
    requires forall t :: i <= t < j ==> word[t] != first
    ensures MergePass(word[i..], first, second) == word[i..j] + MergePass(word[j..], first, second)
    decreases j - i
  {
    if i < j {
      assert word[i..][0] == word[i] && word[i..][1..] == word[i + 1..];
      assert MergePass(word[i..], first, second) == [word[i]] + MergePass(word[i + 1..], first, second);
      MergePassSkips(word, first, second, i + 1, j);
      assert word[i..j] == [word[i]] + word[i + 1..j];
      var rest := MergePass(word[j..], first, second);
      assert [word[i]] + (word[i + 1..j] + rest) == ([word[i]] + word[i + 1..j]) + rest;
    }
  }

  /** Every symbol a pass produces was in the word already, or is the merged pair. */
  lemma {:induction false} MergePassSymbols(w: Word, first: string, second: string)
    ensures forall x :: x in MergePass(w, first, second) ==> x in w || x == first + second
    decreases |w|
  {
    if |w| >= 2 && w[0] == first && w[1] == second {
      MergePassSymbols(w[2..], first, second);
      assert forall x :: x in w[2..] ==> x in w;
    } else if |w| > 0 {
      MergePassSymbols(w[1..], first, second);
      assert forall x :: x in w[1..] ==> x in w;
    }
  }

  /** The scan of the merge pass has produced `done` from the symbols before position `i`. */
  ghost predicate ScannedTo(word: Word, first: string, second: string, done: Word, i: nat) {
    i <= |word| && MergePass(word, first, second) == done + MergePass(word[i..], first, second)
  }

  /** The symbols from `i` up to `j`, none of them `first`, are copied. */
  lemma ScanCopy(word: Word, first: string, second: string, done: Word, i: nat, j: nat)
    requires ScannedTo(word, first, second, done, i) && i <= j <= |word|
    requires forall t :: i <= t < j ==> word[t] != first
    ensures ScannedTo(word, first, second, done + word[i..j], j)
  {
    MergePassSkips(word, first, second, i, j);
    assert done + (word[i..j] + MergePass(word[j..], first, second)) == (done + word[i..j]) + MergePass(word[j..], first, second);
  }

  /** A `first` directly followed by `second` is merged. */
  lemma ScanMerge(word: Word, first: string, second: string, done: Word, j: nat)
    requires ScannedTo(word, first, second, done, j) && j + 1 < |word| && word[j] == first && word[j + 1] == second
    ensures ScannedTo(word, first, second, done + [first + second], j + 2)
  {
    assert word[j..][2..] == word[j + 2..];
    var rest := MergePass(word[j + 2..], first, second);
    assert MergePass(word[j..], first, second) == [first + second] + rest;
    assert done + ([first + second] + rest) == (done + [first + second]) + rest;
  }

  /** A `first` not followed by `second` is copied. */
  lemma ScanKeep(word: Word, first: string, second: string, done: Word, j: nat)
    requires ScannedTo(word, first, second, done, j) && j < |word| && word[j] == first
    requires !(j + 1 < |word| && word[j + 1] == second)
    ensures ScannedTo(word, first, second, done + [word[j]], j + 1)
  {
    assert word[j..][1..] == word[j + 1..];
    var rest := MergePass(word[j + 1..], first, second);
    assert MergePass(word[j..], first, second) == [word[j]] + rest;
    assert done + ([word[j]] + rest) == (done + [word[j]]) + rest;
  }

  /** The merge pass that is run, shortening the word as `bpe`'s loop needs. */
  method MergeOccurrences(word: Word, first: string, second: string) returns (newWord: Word)
    ensures newWord == MergePass(word, first, second)
  {
    newWord := [];
    var i := 0;
    assert word[0..] == word;
    while i < |word|
      invariant ScannedTo(word, first, second, newWord, i)
      decreases |word| - i
    {
      var j := IndexOf(word, first, i);
      if j == -1 {
        ScanCopy(word, first, second, newWord, i, |word|);
        newWord := newWord + word[i..];
        i := |word|;
        break;
      }
      ScanCopy(word, first, second, newWord, i, j);
      newWord := newWord + word[i..j];
      i := j;
      if word[i] == first && i < |word| - 1 && word[i + 1] == second {
        ScanMerge(word, first, second, newWord, i);
        newWord := newWord + [first + second];
        i := i + 2;
      } else {
        ScanKeep(word, first, second, newWord, i);
        newWord := newWord + [word[i]];
        i := i + 1;
      }
    }
    assert word[|word|..] == [];
  }

  /**
   * The merge loop of `bpe`: merge the lowest-ranked adjacent pair
   * everywhere, and again, until one symbol is left or no adjacent pair has
   * a rank. No ranked pair is left standing side by side.
   */
  function MergeLoop(w: Word, ranks: Ranks): (r: Word)
    ensures |r| <= |w|
    ensures |w| >= 1 ==> |r| >= 1
    ensures forall i :: 0 <= i < |r| - 1 ==> (r[i], r[i + 1]) !in ranks
    decreases |w|
  {
    match MinRankPair(Pairs(w), ranks)
    case None =>
      assert forall i :: 0 <= i < |w| - 1 ==> (w[i], w[i + 1]) !in ranks by {
        forall i | 0 <= i < |w| - 1 ensures (w[i], w[i + 1]) !in ranks {
          assert Pairs(w)[i] == (w[i], w[i + 1]);
        }
      }
      w
    case Some(p) =>
      var i :| 0 <= i < |Pairs(w)| && Pairs(w)[i] == p;
      MergePassShrinks(w, p.0, p.1, i);
      var next := MergePass(w, p.0, p.1);
      if |next| == 1 then next else MergeLoop(next, ranks)
  }

  /** The loop keeps the spelling of the word. */
  lemma {:induction false} MergeLoopSpelling(w: Word, ranks: Ranks)
    ensures Join(MergeLoop(w, ranks), "") == Join(w, "")
    decreases |w|
  {
    match MinRankPair(Pairs(w), ranks)
    case None =>
    case Some(p) =>
      var i :| 0 <= i < |Pairs(w)| && Pairs(w)[i] == p;
      MergePassShrinks(w, p.0, p.1, i);
      MergePassSpelling(w, p.0, p.1);
      var next := MergePass(w, p.0, p.1);
      if |next| != 1 {
        MergeLoopSpelling(next, ranks);
      }
  }

  /** Every symbol the loop leaves is one of the word's or the merge of a ranked pair. */
  lemma {:induction false} MergeLoopSymbols(w: Word, ranks: Ranks)
    ensures forall x :: x in MergeLoop(w, ranks) ==> x in w || exists p :: p in ranks && x == p.0 + p.1
    decreases |w|
  {
    match MinRankPair(Pairs(w), ranks)
    case None =>
    case Some(p) =>
      var i :| 0 <= i < |Pairs(w)| && Pairs(w)[i] == p;
      MergePassShrinks(w, p.0, p.1, i);
      var next := MergePass(w, p.0, p.1);
      MergePassSymbols(w, p.0, p.1);
      if |next| != 1 {
        MergeLoopSymbols(next, ranks);
      }
  }

  /** Merging never brings a space into a symbol when no symbol had one. */
  lemma {:induction false} MergeLoopKeepsOut(w: Word, ranks: Ranks, c: char)
    requires forall i :: 0 <= i < |w| ==> c !in w[i]
    ensures forall x :: x in MergeLoop(w, ranks) ==> c !in x
    decreases |w|
  {
    match MinRankPair(Pairs(w), ranks)
    case None =>
    case Some(p) =>
      var i :| 0 <= i < |Pairs(w)| && Pairs(w)[i] == p;
      assert p == (w[i], w[i + 1]);
      MergePassShrinks(w, p.0, p.1, i);
      var next := MergePass(w, p.0, p.1);
      MergePassSymbols(w, p.0, p.1);
      assert forall x :: x in next ==> c !in x;
      if |next| != 1 {
        MergeLoopKeepsOut(next, ranks, c);
      }
  }

  /**
   * The merge loop of `bpe`: pick the best-ranked bigram, merge its
   * occurrences, and stop when no pair is ranked or one symbol is left.
   */
  method MergeWord(w: Word, ranks: Ranks) returns (word: Word)
    ensures word == MergeLoop(w, ranks)
  {
    word := w;
    var pairs := GetPairs(word);
    while true
      invariant pairs == Pairs(word)
      invariant MergeLoop(word, ranks) == MergeLoop(w, ranks)
      decreases |word|
    {
      var bigram := SelectBigram(pairs, ranks);
      if bigram.None? {
        return;
      }
      var first, second := bigram.value.0, bigram.value.1;
      ghost var i :| 0 <= i < |pairs| && pairs[i] == bigram.value;
      MergePassShrinks(word, first, second, i);
      word := MergeOccurrences(word, first, second);
      if |word| == 1 {
        return;
      }
      pairs := GetPairs(word);
    }
  }

  /**
   * What `bpe` computes for a token it has not cached: the merged symbols
   * joined by single spaces.
   */
  function BpeSpec(token: string, ranks: Ranks): string {
    Join(MergeLoop(InitialWord(token), ranks), " ")
  }

  /** A token of at most one character comes back as itself plus the marker. */
  lemma ShortToken(token: string, ranks: Ranks)
    requires |token| <= 1
    ensures BpeSpec(token, ranks) == token + EndOfWord
  {
  }
}
