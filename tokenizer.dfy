/**
 * The `Tokenizer` class: the tables its constructor builds, `bpe` with its
 * cache, the per-chunk step of `encode`, `encodeForCLIP` and `decode`. The
 * pre-tokenizing regular expression and the text clean-up that come before
 * the per-chunk step are not modelled: `Encode` takes the chunks that the
 * regular expression would have matched.
 */
module ClipTokenizer {
  import opened Wrappers
  import opened Tables
  import opened Strings
  import opened ByteCodec
  import opened Bpe
  import opened Vocabulary

  /**
   * A chunk `encode` can remap: not empty (the pre-tokenizer never matches
   * the empty string) and made of characters below 256, each of which has
   * an entry in the byte encoder.
   */
  predicate Encodable(chunk: string) {
    |chunk| > 0 && forall i :: 0 <= i < |chunk| ==> chunk[i] as int < 256
  }

  /** The cache the constructor starts with: each control token, and nothing else, maps to itself. */
  function SeedCache(): (c: map<string, string>)
    ensures c.Keys == {StartOfText, EndOfText}
    ensures forall t :: t in c ==> c[t] == t
  {
    map[StartOfText := StartOfText, EndOfText := EndOfText]
  }

  /** The `encodeForCLIP` layout of `tokens` around the ids `encoded`. */
  ghost predicate ClipLayout(tokens: seq<int>, encoded: seq<int>) {
    var n := if |encoded| < 75 then |encoded| else 75;
    && |tokens| == 77
    && tokens[0] == StartOfTextId
    && tokens[1..n + 1] == encoded[..n]
    && tokens[n + 1] == EndOfTextId
    && forall i :: n + 1 < i < 77 ==> tokens[i] == 0
  }

  /**
   * The packing of `encodeForCLIP`: put the start id in front, cut to 76
   * ids, append the end id and pad with zeros to 77. At most 75 ids of the
   * encoding survive.
   */
  method PackForClip(encoded: seq<int>) returns (tokens: seq<int>)
    ensures ClipLayout(tokens, encoded)
  {
    tokens := [StartOfTextId] + encoded;
    if |tokens| > 76 {
      tokens := tokens[..76];
    }
    tokens := tokens + [EndOfTextId];
    ghost var n := if |encoded| < 75 then |encoded| else 75;
    assert |tokens| == n + 2 && tokens[0] == StartOfTextId;
    assert tokens[1..n + 1] == encoded[..n] && tokens[n + 1] == EndOfTextId;
    while |tokens| < 77
      invariant n + 2 <= |tokens| <= 77
      invariant tokens[0] == StartOfTextId
      invariant tokens[1..n + 1] == encoded[..n] && tokens[n + 1] == EndOfTextId
      invariant forall i :: n + 1 < i < |tokens| ==> tokens[i] == 0
      decreases 77 - |tokens|
    {
      tokens := tokens + [0];
    }
  }

  /**
   * Storing an entry unless it is skipped or already there adds at most its
   * key: keys that were `start + added` become `start + (added + key)`.
   */
  lemma StoreKeys(before: map<string, string>, after: map<string, string>, token: string, value: string, skip: bool,
                  start: set<string>, added: set<string>)
    requires before.Keys == start + added
    requires after == if token in before || skip then before else before[token := value]
    ensures after.Keys == start + (added + if skip then {} else {token})
  {
  }

  class Tokenizer {
    const byteEncoder: map<Byte, char>
    const byteDecoder: map<char, Byte>
    const encoder: map<string, int>
    const decoder: map<int, string>
    const bpeRanks: Ranks
    var cache: map<string, string>

    /** The merge list the tables were built from, and the vocabulary. */
    ghost const merges: seq<Pair>
    ghost const vocab: seq<string>

    /**
     * The tables are the ones the constructor derives from `merges` and
     * `vocab`, and `vocab` has an entry for every symbol the merge engine
     * can produce.
     */
    ghost predicate TablesValid() {
      && ByteTablesValid()
      && encoder == IndexMap(vocab)
      && decoder == Invert(encoder)
      && bpeRanks == IndexMap(merges)
      && Covers(vocab, merges)
    }

    /** The byte tables are the byte encoder and its inverse. */
    ghost predicate ByteTablesValid() {
      byteEncoder == ByteEncoder() && byteDecoder == ByteDecoder()
    }

    /** What `bpe` returns for `token`: the control tokens stand for themselves. */
    ghost function Expected(token: string): string {
      if token == StartOfText || token == EndOfText then token else BpeSpec(token, bpeRanks)
    }

    /** The cache is pure memoisation and still holds the control tokens. */
    ghost predicate CacheValid()
      reads this
    {
      && StartOfText in cache && EndOfText in cache
      && forall t :: t in cache ==> cache[t] == Expected(t)
    }

    /**
     * The constructor: the byte tables, the vocabulary (base symbols, the
     * same with the end-of-word marker, each merge, the control tokens),
     * `encoder` and `decoder` from it, the merge ranks and the seeded cache.
     */
    constructor (merges: seq<Pair>)
      ensures TablesValid() && CacheValid()
      ensures this.merges == merges && vocab == Vocab(merges)
      ensures cache == SeedCache()
    {
      var table := BytesToUnicode();
      ByteEncoderIsUnique(table);
      byteEncoder := table;
      byteDecoder := Invert(table);
      var words := BuildVocab(merges);
      VocabCovers(merges);
      encoder := IndexMap(words);
      decoder := Invert(IndexMap(words));
      bpeRanks := IndexMap(merges);
      cache := SeedCache();
      this.merges := merges;
      vocab := words;
      new;
      forall t | t in cache
        ensures cache[t] == Expected(t)
      {
        assert t in {StartOfText, EndOfText};
      }
    }

    /**
     * `bpe`: a cached token returns its cached value; a token of at most one
     * character returns itself plus the end-of-word marker without touching
     * the cache; any other token runs the merge loop, and the space-joined
     * symbols are cached under it.
     */
    method Bpe(token: string) returns (r: string)
      requires CacheValid()
      modifies this
      ensures CacheValid()
      ensures r == Expected(token)
      ensures cache == if token in old(cache) || |token| <= 1 then old(cache) else old(cache)[token := r]
    {
      if token in cache {
        return cache[token];
      }
      var word := InitialWord(token);
      var pairs := GetPairs(word);
      if |pairs| == 0 {
        assert |token| <= 1;
        ShortToken(token, bpeRanks);
        return token + EndOfWord;
      }
      assert |token| >= 2;
      var merged := MergeWord(word, bpeRanks);
      r := Join(merged, " ");
      cache := cache[token := r];
    }

    /** The first step of `encode` for one chunk: each character through the byte encoder. */
    function Remap(chunk: string): (s: string)
      requires ByteTablesValid()
      requires forall i :: 0 <= i < |chunk| ==> chunk[i] as int < 256
      ensures |s| == |chunk|
      ensures forall i {:trigger s[i]} :: 0 <= i < |s| ==> s[i] == ByteToChar(chunk[i] as int)
    {
      if |chunk| == 0 then ""
      else
        var rest := Remap(chunk[1..]);
        assert forall i {:trigger rest[i]} :: 0 <= i < |rest| ==> rest[i] == ByteToChar(chunk[i + 1] as int);
        [byteEncoder[chunk[0] as int]] + rest
    }

    /** The initial word of a remapped chunk: symbols of the vocabulary, free of spaces. */
    lemma InitialSymbols(chunk: string)
      requires TablesValid() && Encodable(chunk)
      ensures forall x :: x in InitialWord(Remap(chunk)) ==> ' ' !in x && x in vocab
    {
      var w := InitialWord(Remap(chunk));
      forall i | 0 <= i < |w|
        ensures ' ' !in w[i] && w[i] in vocab
      {
        var b: Byte := chunk[i] as int;
        ByteToCharIsNotSpace(b);
        if i < |w| - 1 {
          assert w[i] == [ByteToChar(b)];
        } else {
          assert w[i] == [ByteToChar(b)] + EndOfWord;
          assert ' ' !in EndOfWord;
        }
      }
    }

    /** Merging symbols of the vocabulary leaves symbols of the vocabulary. */
    lemma MergedSymbols(w: Word)
      requires TablesValid()
      requires forall x :: x in w ==> x in vocab
      ensures forall x :: x in MergeLoop(w, bpeRanks) ==> x in vocab
    {
      MergeLoopSymbols(w, bpeRanks);
      forall x | x in MergeLoop(w, bpeRanks) && x !in w
        ensures x in vocab
      {
        var p :| p in bpeRanks && x == p.0 + p.1;
        assert merges[bpeRanks[p]] == p;
      }
    }

    /** For a chunk that is not a control token, `bpe` splits into the merged word. */
    lemma ChunkSplit(chunk: string)
      requires TablesValid() && Encodable(chunk)
      requires Remap(chunk) != StartOfText && Remap(chunk) != EndOfText
      ensures Split(Expected(Remap(chunk)), ' ') == MergeLoop(InitialWord(Remap(chunk)), bpeRanks)
    {
      var w := InitialWord(Remap(chunk));
      InitialSymbols(chunk);
      MergeLoopKeepsOut(w, bpeRanks, ' ');
      SplitJoin(MergeLoop(w, bpeRanks), ' ');
    }

    /** A control token stands for itself, and has an id. */
    lemma ControlTokenSplit(t: string)
      requires TablesValid()
      requires t == StartOfText || t == EndOfText
      ensures Split(Expected(t), ' ') == [t] && t in encoder
    {
      assert ' ' !in t;
      SplitWithoutSeparator(t, ' ');
    }

    /** The symbols `bpe` splits a remapped chunk into all have ids. */
    lemma ChunkSymbols(chunk: string)
      requires TablesValid() && Encodable(chunk)
      ensures forall s :: s in Split(Expected(Remap(chunk)), ' ') ==> s in encoder
    {
      var t := Remap(chunk);
      if t == StartOfText || t == EndOfText {
        ControlTokenSplit(t);
      } else {
        ChunkSplit(chunk);
        InitialSymbols(chunk);
        MergedSymbols(InitialWord(t));
      }
    }

    /** The ids of some symbols, through `encoder`. */
    function Lookup(symbols: seq<string>): (ids: seq<int>)
      requires forall s :: s in symbols ==> s in encoder
      ensures |ids| == |symbols|
      ensures forall i {:trigger ids[i]} :: 0 <= i < |ids| ==> ids[i] == encoder[symbols[i]]
    {
      if |symbols| == 0 then [] else [encoder[symbols[0]]] + Lookup(symbols[1..])
    }

    /** The ids of one chunk: the space-separated symbols of `bpe`, through `encoder`. */
    ghost function ChunkIds(chunk: string): seq<int>
      requires TablesValid() && Encodable(chunk)
    {
      ChunkSymbols(chunk);
      Lookup(Split(Expected(Remap(chunk)), ' '))
    }

    /** The ids of a list of chunks, one chunk after the other. */
    ghost function EncodeSpec(chunks: seq<string>): seq<int>
      requires TablesValid()
      requires forall i :: 0 <= i < |chunks| ==> Encodable(chunks[i])
    {
      if |chunks| == 0 then [] else ChunkIds(chunks[0]) + EncodeSpec(chunks[1..])
    }

    /** Encoding distributes over putting two lists of chunks one after the other. */
    lemma {:induction false} EncodeSpecAppend(a: seq<string>, b: seq<string>)
      requires TablesValid()
      requires forall i :: 0 <= i < |a| ==> Encodable(a[i])
      requires forall i :: 0 <= i < |b| ==> Encodable(b[i])
      ensures EncodeSpec(a + b) == EncodeSpec(a) + EncodeSpec(b)
      decreases |a|
    {
      if |a| == 0 {
        assert a + b == b;
      } else {
        assert (a + b)[1..] == a[1..] + b;
        EncodeSpecAppend(a[1..], b);
        AppendAssociates(ChunkIds(a[0]), EncodeSpec(a[1..]), EncodeSpec(b));
      }
    }

    /** The ids of the first `k + 1` chunks: those of the first `k`, then those of chunk `k`. */
    lemma EncodeSpecStep(chunks: seq<string>, k: nat)
      requires TablesValid()
      requires forall i :: 0 <= i < |chunks| ==> Encodable(chunks[i])
      requires k < |chunks|
      ensures EncodeSpec(chunks[..k + 1]) == EncodeSpec(chunks[..k]) + ChunkIds(chunks[k])
    {
      assert chunks[..k + 1] == chunks[..k] + [chunks[k]];
      EncodeSpecAppend(chunks[..k], [chunks[k]]);
      assert EncodeSpec([chunks[k]]) == ChunkIds(chunks[k]);
    }

    /**
     * The per-chunk step of `encode`: remap, `bpe`, split at spaces, look
     * up each symbol. A remapped chunk of two characters or more that was
     * not cached yet is cached with its `bpe` result.
     */
    method EncodeChunk(chunk: string) returns (ids: seq<int>)
      requires TablesValid() && CacheValid() && Encodable(chunk)
      modifies this
      ensures CacheValid()
      ensures ids == ChunkIds(chunk)
      ensures cache == if Remap(chunk) in old(cache) || |chunk| <= 1 then old(cache)
                       else old(cache)[Remap(chunk) := Expected(Remap(chunk))]
    {
      var token := Remap(chunk);
      var merged := Bpe(token);
      var symbols := Split(merged, ' ');
      ChunkSymbols(chunk);
      ids := Lookup(symbols);
    }

    /** The cache key one chunk can add: its remapped form, when it has two characters or more. */
    ghost function AddedKey(chunk: string): set<string>
      requires TablesValid() && Encodable(chunk)
    {
      if |chunk| <= 1 then {} else {Remap(chunk)}
    }

    /** The cache keys encoding the first `n` chunks can add, one chunk after the other. */
    ghost function Added(chunks: seq<string>, n: nat): set<string>
      requires TablesValid() && n <= |chunks|
      requires forall i :: 0 <= i < |chunks| ==> Encodable(chunks[i])
    {
      if n == 0 then {} else Added(chunks, n - 1) + AddedKey(chunks[n - 1])
    }

    /**
     * The loop of `encode` over the chunks. The cache gains exactly the
     * remapped chunks of two characters or more, each with its `bpe` result.
     */
    method Encode(chunks: seq<string>) returns (ids: seq<int>)
      requires TablesValid() && CacheValid()
      requires forall i :: 0 <= i < |chunks| ==> Encodable(chunks[i])
      modifies this
      ensures CacheValid()
      ensures ids == EncodeSpec(chunks)
      ensures cache.Keys == old(cache).Keys + Added(chunks, |chunks|)
    {
      ids := [];
      for k := 0 to |chunks|
        invariant CacheValid()
        invariant ids == EncodeSpec(chunks[..k])
        invariant cache.Keys == old(cache).Keys + Added(chunks, k)
      {
        EncodeSpecStep(chunks, k);
        ghost var before := cache;
        var chunkIds := EncodeChunk(chunks[k]);
        StoreKeys(before, cache, Remap(chunks[k]), Expected(Remap(chunks[k])), |chunks[k]| <= 1,
                  old(cache).Keys, Added(chunks, k));
        ids := ids + chunkIds;
      }
      assert chunks[..|chunks|] == chunks;
    }

    /** `encodeForCLIP`: encode the chunks, then pack the ids into 77 slots. */
    method EncodeForClip(chunks: seq<string>) returns (tokens: seq<int>)
      requires TablesValid() && CacheValid()
      requires forall i :: 0 <= i < |chunks| ==> Encodable(chunks[i])
      modifies this
      ensures CacheValid()
      ensures ClipLayout(tokens, EncodeSpec(chunks))
      ensures cache.Keys == old(cache).Keys + Added(chunks, |chunks|)
    {
      var encoded := Encode(chunks);
      tokens := PackForClip(encoded);
    }

    /** The text of one id: its vocabulary entry, or nothing for an unknown id. */
    function Piece(id: int): string {
      if id in decoder then decoder[id] else ""
    }

    /** The texts of a run of ids. */
    function Pieces(tokens: seq<int>): (texts: seq<string>)
      ensures |texts| == |tokens|
      ensures forall i {:trigger texts[i]} :: 0 <= i < |tokens| ==> texts[i] == Piece(tokens[i])
    {
      if |tokens| == 0 then [] else [Piece(tokens[0])] + Pieces(tokens[1..])
    }

    /** The first step of `decode`: each id through `decoder`, concatenated. */
    function DecoderText(tokens: seq<int>): string {
      Join(Pieces(tokens), "")
    }

    /** One character through the byte decoder; a character it does not know becomes NUL. */
    function ByteChar(c: char): char {
      if c in byteDecoder then byteDecoder[c] as char else 0 as char
    }

    /** The second step of `decode`: every character through the byte decoder. */
    function ByteText(text: string): (r: string)
      ensures |r| == |text|
      ensures forall i {:trigger r[i]} :: 0 <= i < |text| ==> r[i] == ByteChar(text[i])
    {
      if |text| == 0 then "" else [ByteChar(text[0])] + ByteText(text[1..])
    }

    /** `decode`: both steps, then every end-of-word marker becomes a space. */
    function Decode(tokens: seq<int>): string {
      ReplaceAll(ByteText(DecoderText(tokens)), EndOfWord, " ")
    }

    /** Decoding two runs of ids one after the other reads them one after the other. */
    lemma DecoderTextAppend(a: seq<int>, b: seq<int>)
      ensures DecoderText(a + b) == DecoderText(a) + DecoderText(b)
    {
      var p := Pieces(a + b);
      forall i | 0 <= i < |p|
        ensures p[i] == (Pieces(a) + Pieces(b))[i]
      {
        if i < |a| {
          assert (a + b)[i] == a[i];
        } else {
          assert (a + b)[i] == b[i - |a|];
        }
      }
      assert p == Pieces(a) + Pieces(b);
      ConcatAppend(Pieces(a), Pieces(b));
    }

    /** The byte decoder works character by character. */
    lemma ByteTextAppend(a: string, b: string)
      ensures ByteText(a + b) == ByteText(a) + ByteText(b)
    {
    }

    /** The byte decoder undoes the remapping of a chunk. */
    lemma ByteTextOfRemap(chunk: string)
      requires TablesValid() && Encodable(chunk)
      ensures ByteText(Remap(chunk)) == chunk
    {
      ByteCodecRoundTrip();
      forall i | 0 <= i < |chunk|
        ensures ByteText(Remap(chunk))[i] == chunk[i]
      {
        var b: Byte := chunk[i] as int;
        assert Remap(chunk)[i] == ByteToChar(b);
      }
    }

    /** The byte decoder leaves the end-of-word marker as it is. */
    lemma ByteTextOfMarker()
      requires TablesValid()
      ensures ByteText(EndOfWord) == EndOfWord
    {
      ByteCodecRoundTrip();
      forall i | 0 <= i < |EndOfWord|
        ensures ByteText(EndOfWord)[i] == EndOfWord[i]
      {
        var b: Byte := EndOfWord[i] as int;
        ByteToCharCodePoint(b);
        assert ByteToChar(b) == EndOfWord[i];
      }
    }

    /** `decoder` gives back every symbol that `encoder` looked up. */
    lemma LookupDecodes(symbols: seq<string>)
      requires TablesValid()
      requires forall s :: s in symbols ==> s in encoder
      ensures Pieces(Lookup(symbols)) == symbols
    {
      forall i | 0 <= i < |symbols|
        ensures Pieces(Lookup(symbols))[i] == symbols[i]
      {
        assert symbols[i] in encoder;
      }
    }

    /** The ids of a chunk decode to the remapped chunk and the end-of-word marker. */
    lemma ChunkText(chunk: string)
      requires TablesValid() && Encodable(chunk) && '<' !in chunk
      ensures DecoderText(ChunkIds(chunk)) == Remap(chunk) + EndOfWord
    {
      var t := Remap(chunk);
      ByteToCharCodePoint(chunk[0] as int);
      assert t[0] != '<';
      assert t != StartOfText && t != EndOfText;
      ChunkSplit(chunk);
      ChunkSymbols(chunk);
      LookupDecodes(Split(Expected(t), ' '));
      MergeLoopSpelling(InitialWord(t), bpeRanks);
    }

    /** Decoding the ids of a chunk followed by other ids: the chunk, a space, then the rest. */
    lemma DecodeChunk(c: string, ids: seq<int>)
      requires TablesValid() && Encodable(c) && '<' !in c
      ensures Decode(ChunkIds(c) + ids) == c + " " + Decode(ids)
    {
      var rest := DecoderText(ids);
      DecoderTextAppend(ChunkIds(c), ids);
      ChunkText(c);
      assert DecoderText(ChunkIds(c) + ids) == Remap(c) + EndOfWord + rest;
      ByteTextAppend(Remap(c) + EndOfWord, rest);
      ByteTextAppend(Remap(c), EndOfWord);
      ByteTextOfRemap(c);
      ByteTextOfMarker();
      assert ByteText(Remap(c) + EndOfWord + rest) == c + EndOfWord + ByteText(rest);
      ReplaceAllAfterPlain(c, EndOfWord, " ", ByteText(rest));
    }

    /**
     * Decoding the encoding of chunks without a '<' gives the chunks back,
     * each followed by a space.
     */
    lemma {:induction false} DecodeEncode(chunks: seq<string>)
      requires TablesValid()
      requires forall i :: 0 <= i < |chunks| ==> Encodable(chunks[i]) && '<' !in chunks[i]
      ensures Decode(EncodeSpec(chunks)) == if |chunks| == 0 then "" else Join(chunks, " ") + " "
      decreases |chunks|
    {
      if |chunks| > 0 {
        var c, rest := chunks[0], chunks[1..];
        DecodeEncode(rest);
        DecodeChunk(c, EncodeSpec(rest));
        assert Decode(EncodeSpec(chunks)) == c + " " + Decode(EncodeSpec(rest));
        if |rest| == 0 {
          assert Join(chunks, " ") == c;
        } else {
          JoinClosed(chunks, " ");
        }
      } else {
        assert Decode([]) == "";
      }
    }

    /**
     * With the cache read by own keys only, the word "constructor" encodes
     * like any other and decodes back.
     */
    lemma ConstructorRoundTrip()
      requires TablesValid()
      ensures Decode(EncodeSpec(["constructor"])) == "constructor" + " "
    {
      DecodeEncode(["constructor"]);
    }
  }

  /** The names every plain JavaScript object inherits from `Object.prototype`. */
  const InheritedNames: set<string> := {
    "constructor", "toString", "toLocaleString", "valueOf", "hasOwnProperty",
    "isPrototypeOf", "propertyIsEnumerable", "__proto__", "__defineGetter__",
    "__defineSetter__", "__lookupGetter__", "__lookupSetter__"
  }

  /** What reading a key of a plain object literal yields. */
  datatype CacheRead = Own(value: string) | Inherited | Missing

  /**
   * `this.cache[token]` on the object literal the source uses as cache: an
   * own entry, else an inherited member of `Object.prototype`, else
   * `undefined`. Only `Missing` fails the `!== undefined` test.
   */
  function ReadCacheAsWritten(cache: map<string, string>, token: string): (r: CacheRead)
    ensures r.Missing? <==> token !in cache && token !in InheritedNames
    ensures r.Own? ==> token in cache && r.value == cache[token]
  {
    if token in cache then Own(cache[token]) else if token in InheritedNames then Inherited else Missing
  }

  /**
   * One chunk of `encode` as written: the symbols `bpe(token).split(' ')`
   * gives, or None where `split` is called on a function and throws.
   */
  function ChunkSymbolsAsWritten(cache: map<string, string>, token: string, ranks: Ranks): (r: Option<seq<string>>)
    ensures r.None? <==> token !in cache && token in InheritedNames
  {
    match ReadCacheAsWritten(cache, token)
    case Own(v) => Some(Split(v, ' '))
    case Inherited => None
    case Missing => Some(Split(BpeSpec(token, ranks), ' '))
  }

  /** On a fresh tokenizer, the word "constructor" makes `encode` throw. */
  lemma ConstructorThrows(ranks: Ranks)
    ensures "constructor" !in SeedCache()
    ensures ChunkSymbolsAsWritten(SeedCache(), "constructor", ranks).None?
  {
    assert "constructor" != StartOfText && "constructor" != EndOfText;
  }
}
