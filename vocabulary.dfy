/**
 * The vocabulary the `Tokenizer` constructor builds, and the facts about the
 * lookup tables derived from it: where each kind of entry sits, the ids of
 * the two control tokens, the merge ranks, and that every symbol the merge
 * engine can produce has an id.
 */
module Vocabulary {
  import opened Tables
  import opened ByteCodec
  import opened Bpe

  /** The control token that opens every packed sequence. */
  const StartOfText: string := "<|startoftext|>"

  /** The control token that closes every packed sequence. */
  const EndOfText: string := "<|endoftext|>"

  /** The number of merges the tokenizer keeps from its merge asset: 49152 - 256 - 2. */
  const AssetMerges: nat := 49152 - 256 - 2

  /** The ids `encodeForCLIP` writes for the two control tokens. */
  const StartOfTextId: int := 49406
  const EndOfTextId: int := 49407

  /** The 256 base symbols, one per character of the hardcoded list. */
  function BaseSymbols(): seq<string> {
    seq(|BaseChars|, i requires 0 <= i < |BaseChars| => [BaseChars[i]])
  }

  /**
   * The vocabulary: the base symbols, the same symbols with the end-of-word
   * marker, the concatenation of every merge in list order, then the two
   * control tokens.
   */
  function Vocab(merges: seq<Pair>): (v: seq<string>)
    ensures |v| == 512 + |merges| + 2
    ensures v[512 + |merges|] == StartOfText && v[513 + |merges|] == EndOfText
  {
    BaseCharsLength();
    BaseSymbols()
    + seq(|BaseSymbols()|, i requires 0 <= i < |BaseSymbols()| => BaseSymbols()[i] + EndOfWord)
    + seq(|merges|, k requires 0 <= k < |merges| => merges[k].0 + merges[k].1)
    + [StartOfText, EndOfText]
  }

  /**
   * The vocabulary as the constructor builds it: the base symbols, the same
   * with the end-of-word marker, one push per merge, then the two control
   * tokens.
   */
  method BuildVocab(merges: seq<Pair>) returns (words: seq<string>)
    ensures words == Vocab(merges)
  {
    words := BaseSymbols();
    words := words + seq(|words|, i requires 0 <= i < |words| => words[i] + EndOfWord);
    ghost var prefix := words;
    for k := 0 to |merges|
      invariant words == prefix + seq(k, j requires 0 <= j < k => merges[j].0 + merges[j].1)
    {
      words := words + [merges[k].0 + merges[k].1];
    }
    words := words + [StartOfText, EndOfText];
  }

  /** Where each entry of the vocabulary sits. */
  lemma VocabLayout(merges: seq<Pair>)
    ensures |Vocab(merges)| == 512 + |merges| + 2
    ensures forall i :: 0 <= i < 256 ==> Vocab(merges)[i] == [BaseChars[i]]
    ensures forall i :: 0 <= i < 256 ==> Vocab(merges)[256 + i] == Vocab(merges)[i] + EndOfWord
    ensures forall k :: 0 <= k < |merges| ==> Vocab(merges)[512 + k] == merges[k].0 + merges[k].1
    ensures Vocab(merges)[512 + |merges|] == StartOfText
    ensures Vocab(merges)[513 + |merges|] == EndOfText
  {
    BaseCharsCodePoints();
  }

  /**
   * The two control tokens take the last two ids, whatever the merges hold:
   * with the asset's 48894 merges, the ids `encodeForCLIP` writes.
   */
  lemma ControlTokenIds(merges: seq<Pair>)
    ensures StartOfText in IndexMap(Vocab(merges)) && EndOfText in IndexMap(Vocab(merges))
    ensures IndexMap(Vocab(merges))[StartOfText] == 512 + |merges|
    ensures IndexMap(Vocab(merges))[EndOfText] == 513 + |merges|
    ensures |merges| == AssetMerges ==>
              IndexMap(Vocab(merges))[StartOfText] == StartOfTextId
              && IndexMap(Vocab(merges))[EndOfText] == EndOfTextId
  {
    var v := Vocab(merges);
    var n := 512 + |merges|;
    assert StartOfText != EndOfText by {
      assert StartOfText[2] != EndOfText[2];
    }
    IndexMapOfLast(v, n);
    IndexMapOfLast(v, n + 1);
  }

  /** The merge-rank table gives each merge its position in the list, the later one on a repeat. */
  lemma MergeRanks(merges: seq<Pair>)
    ensures forall p :: p in IndexMap(merges) <==> p in merges
    ensures forall k :: 0 <= k < |merges| ==> merges[k] in IndexMap(merges) && IndexMap(merges)[merges[k]] >= k
    ensures Distinct(merges) ==> forall k :: 0 <= k < |merges| ==> IndexMap(merges)[merges[k]] == k
  {
    var m := IndexMap(merges);
    forall k | 0 <= k < |merges|
      ensures merges[k] in m && m[merges[k]] >= k
    {
      assert merges[k] in merges;
    }
    if Distinct(merges) {
      IndexMapOfDistinct(merges);
    }
  }

  /**
   * `decoder` undoes `encoder` on every vocabulary entry, and `encoder` undoes
   * `decoder` on every id it holds; with no repeated entry, the ids are
   * exactly the positions of the vocabulary.
   */
  lemma EncoderDecoder(merges: seq<Pair>)
    ensures forall v :: v in Vocab(merges) ==> Invert(IndexMap(Vocab(merges)))[IndexMap(Vocab(merges))[v]] == v
    ensures forall id :: id in Invert(IndexMap(Vocab(merges))) ==>
              IndexMap(Vocab(merges))[Invert(IndexMap(Vocab(merges)))[id]] == id
    ensures Distinct(Vocab(merges)) ==>
              forall id :: id in Invert(IndexMap(Vocab(merges))) <==> 0 <= id < |Vocab(merges)|
    ensures Distinct(Vocab(merges)) ==>
              forall i :: 0 <= i < |Vocab(merges)| ==> Invert(IndexMap(Vocab(merges)))[i] == Vocab(merges)[i]
  {
    var v := Vocab(merges);
    forall x | x in v
      ensures Invert(IndexMap(v))[IndexMap(v)[x]] == x
    {
      LookupRoundTrip(v, x);
    }
    if Distinct(v) {
      IndexMapOfDistinct(v);
    }
  }

  /** Every byte's symbol, bare and with the end-of-word marker, has an id. */
  lemma ByteSymbolsInVocab(merges: seq<Pair>, b: Byte)
    ensures [ByteToChar(b)] in Vocab(merges)
    ensures [ByteToChar(b)] + EndOfWord in Vocab(merges)
  {
    VocabLayout(merges);
    ByteSymbolInBase(b);
    var i :| 0 <= i < |BaseChars| && BaseChars[i] == ByteToChar(b);
    assert Vocab(merges)[i] == [ByteToChar(b)];
    assert Vocab(merges)[256 + i] == [ByteToChar(b)] + EndOfWord;
  }

  /**
   * `v` holds every symbol the merge engine can hand to `encoder`: each
   * byte's symbol, bare and with the end-of-word marker, each merge, and
   * the two control tokens.
   */
  ghost predicate Covers(v: seq<string>, merges: seq<Pair>) {
    && (forall b: Byte :: [ByteToChar(b)] in v && [ByteToChar(b)] + EndOfWord in v)
    && (forall k :: 0 <= k < |merges| ==> merges[k].0 + merges[k].1 in v)
    && StartOfText in v && EndOfText in v
  }

  /** The vocabulary covers every symbol the merge engine can produce. */
  lemma VocabCovers(merges: seq<Pair>)
    ensures Covers(Vocab(merges), merges)
  {
    forall b: Byte
      ensures [ByteToChar(b)] in Vocab(merges) && [ByteToChar(b)] + EndOfWord in Vocab(merges)
    {
      ByteSymbolsInVocab(merges, b);
    }
    forall k | 0 <= k < |merges|
      ensures merges[k].0 + merges[k].1 in Vocab(merges)
    {
      MergeEntry(merges, k);
    }
    ControlTokenIds(merges);
  }

  /** Merge `k` sits at id 512 + k. */
  lemma MergeEntry(merges: seq<Pair>, k: nat)
    requires k < |merges|
    ensures 512 + k < |Vocab(merges)| && Vocab(merges)[512 + k] == merges[k].0 + merges[k].1
  {
    BaseCharsLength();
  }

  /** The merge of every ranked pair has an id. */
  lemma MergedSymbolsInVocab(merges: seq<Pair>)
    ensures forall p :: p in IndexMap(merges) ==> p.0 + p.1 in Vocab(merges)
  {
    forall p | p in IndexMap(merges)
      ensures p.0 + p.1 in Vocab(merges)
    {
      var k := IndexMap(merges)[p];
      MergeEntry(merges, k);
    }
  }
}
