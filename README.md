# clip-bpe-ts, modelled in Dafny

clip-bpe-ts is the byte-level BPE tokenizer of CLIP written in TypeScript
(`src/index.ts`). This project models its core:

- the byte codec (`range`, `bytesToUnicode`, `byteDecoder`);
- the tables that the `Tokenizer` constructor builds: the vocabulary, `encoder`,
  `decoder`, `bpeRanks` and the seeded cache;
- the merge engine `bpe`, together with `getPairs`;
- the per-chunk step of `encode`;
- the fixed-length packing of `encodeForCLIP`;
- `decode`.

The project proves properties of that model.

The modules:

- `Tables` (`tables.dfy`): JavaScript's `Object.fromEntries` as used by the
  source. A later entry overwrites an earlier one. `IndexMap` is the
  `value → index` table and `Invert` is the table read backwards.
- `ByteCodec` (`byte_codec.dfy`): `range` and `bytesToUnicode` as methods
  with their loops, proved against the reference map `ByteToChar`. It also
  holds the hardcoded 256-symbol base list, with a proof that this list is
  the byte map's values in construction order.
- `Strings` (`strings.dfy`): the JavaScript string operations the tokenizer
  relies on: `join`, `split` on one character and `replaceAll`.
- `Bpe` (`bpe.dfy`): the merge engine as pure functions. `MergeLoop` is the
  specification of `bpe`'s loop. The loops of `getPairs`, of the bigram
  selection, of the merge pass and of the whole `while (1)` are methods
  proved equal to those functions.
- `Vocabulary` (`vocabulary.dfy`): the layout of the vocabulary, the ids of
  the control tokens, the merge ranks, and that every symbol the engine can
  produce has an id.
- `ClipTokenizer` (`tokenizer.dfy`): the `Tokenizer` class. The tables are
  constant fields. `cache` is the only mutable field. Its invariant is that
  every cached value equals the pure specification, so the cache is pure
  memoisation. The module also proves these properties:
  - `encode` is equal to its specification;
  - the output of `encodeForCLIP` has the required layout;
  - `decode` gives back the chunks of an encoding.

Merges are a parameter of the constructor, as a list of pairs. Text is a
parameter of `Encode`, as the list of chunks the pre-tokenizing regular
expression would produce.

## Model

| member | source | states |
|---|---|---|
| Tables.FromEntries | src/index.ts:43 | every key of the entry list is in the table, and each key maps to the value of one of its entries |
| Tables.IndexMap | src/index.ts:87 | `Object.fromEntries(list.map((v, i) => [v, i]))`: the keys are exactly the list's elements; each key maps to a position holding it; no later position holds it (last entry wins); no two keys share an index |
| Tables.Invert | src/index.ts:88 | the inverted table has the old values as keys and maps each back to its key, in both directions |
| Tables.IndexMapOfLast | src/index.ts:87 | an element that does not occur again later in the list is given its own position as index |
| Tables.IndexMapOfDistinct | src/index.ts:87-88 | for a list without repeats, element i gets index i, and the inverted table is defined exactly on 0..n-1 and gives element i back |
| ByteCodec.Range | src/index.ts:9-25 | the result is exactly the progression from `start` (from 0 in the one-argument form) by `step` that stops before passing `stop`, and is empty when the start is already past it |
| ByteCodec.PrintableRuns | src/index.ts:28-32 | the three `range` calls over '!'..'~', '¡'..'¬' and '®'..'ÿ' concatenate to the 188 printable bytes |
| ByteCodec.PrintableBytesMembers | src/index.ts:28-32 | the initial `bs` holds 188 bytes, and a byte is in it exactly when it is printable |
| ByteCodec.ByteToChar | src/index.ts:27-44 | the symbol of a byte, stated as a formula; `BytesToUnicode` is proved to build exactly this map, and `ByteToCharCodePoint`, `ByteToCharIsInjective` and `ByteToCharIsNotSpace` state its code points, injectivity and that no symbol is a space |
| ByteCodec.BytesToUnicode | src/index.ts:27-44 | the table has every byte 0..255 as a key, and byte b maps to `ByteToChar(b)` |
| ByteCodec.ByteToCharCodePoint | src/index.ts:33-41 | a printable byte maps to its own code point, and the other bytes map to 256 + the number of non-printable bytes below them |
| ByteCodec.OtherBytesCount | src/index.ts:35-41 | the number of non-printable bytes below b, range by range; 68 in all |
| ByteCodec.OtherBytesDistinct | src/index.ts:35-41 | the non-printable bytes are appended in strictly increasing order |
| ByteCodec.OtherBytesMembership | src/index.ts:35-41 | a byte below c is appended by the loop by c exactly when it is not printable |
| ByteCodec.ByteEncoder | src/index.ts:75 | `byteEncoder` is total on 0..255, agrees with `ByteToChar`, and is injective |
| ByteCodec.ByteDecoder | src/index.ts:76 | `byteDecoder` is `byteEncoder` inverted; `ByteCodecRoundTrip` states that the two undo each other |
| ByteCodec.ByteToCharIsInjective | src/index.ts:27-44 | two bytes with the same symbol are the same byte |
| ByteCodec.ByteCodecRoundTrip | src/index.ts:75-76 | `byteDecoder[byteEncoder[b]] == b` for every byte, and `byteEncoder[byteDecoder[c]] == c` for every symbol `byteDecoder` knows |
| ByteCodec.ByteToCharIsNotSpace | src/index.ts:27-44 | no byte's symbol is a space, so `split(' ')` never cuts a symbol |
| ByteCodec.BaseCharsCodePoints | src/index.ts:81 | the hardcoded list has 256 entries, with code points 33..126, 161..172, 174..255 and then 256..323 |
| ByteCodec.BaseCharsInConstructionOrder | src/index.ts:80-81 | entry i of the hardcoded list is the symbol of the i-th byte in the order `bytesToUnicode` inserts them |
| ByteCodec.BaseCharsAreNotInByteOrder | src/index.ts:80-81 | the list is not in byte order: its first entry is not byte 0's symbol |
| ByteCodec.ByteSymbolInBase | src/index.ts:81 | every byte's symbol is in the hardcoded list |
| Strings.Join | src/index.ts:157 | `parts.join(sep)`: the parts with `sep` between each two, `[]` joining to ""; `SplitJoin` and `ConcatAppend` state how it undoes `Split` and how it distributes over concatenation |
| Strings.Split | src/index.ts:167 | `split` on one character gives at least one piece, and no piece holds the separator; joining the pieces with it gives the string back |
| Strings.SplitJoin | src/index.ts:157 | joining separator-free pieces with the separator and splitting again gives the pieces back |
| Strings.ConcatAppend | src/index.ts:183 | `join("")` of two lists one after the other is the concatenation of their joins |
| Strings.ReplaceAll | src/index.ts:188 | `replaceAll` of a literal pattern, left to right, non-overlapping; `ReplaceAllWithoutPattern` and `ReplaceAllAfterPlain` state what it leaves and what it replaces |
| Strings.ReplaceAllWithoutPattern | src/index.ts:188 | a string without the pattern's first character is left unchanged by `replaceAll` |
| Strings.ReplaceAllAfterPlain | src/index.ts:188 | when `a` has no '<', `replaceAll` on `a + pat + b` replaces the occurrence right after `a` and then continues on `b` |
| Bpe.InitialWord | src/index.ts:100 | one symbol per character; the last carries `'</w>'`; the empty token gives `['</w>']`; the symbols spell `token + '</w>'` |
| Bpe.Pairs | src/index.ts:46-54 | one pair per two adjacent symbols, in order |
| Bpe.GetPairs | src/index.ts:46-54 | the loop yields exactly the adjacent pairs of the word, left to right |
| Bpe.MinRankPair | src/index.ts:111-124 | None exactly when no pair has a rank; otherwise a pair of the word that has a rank no higher than that of any ranked pair |
| Bpe.SelectBigram | src/index.ts:110-124 | the `minRank`/`bigram` loop selects exactly `MinRankPair` |
| Bpe.IndexOf | src/index.ts:131 | `indexOf(x, from)`: -1 when no position from `from` on holds x; otherwise the first such position |
| Bpe.MergePass | src/index.ts:127-148 | a pass never makes the word longer; `MergePassSpelling`, `MergePassShrinks`, `MergePassSymbols` and `MergePassSkips` state what it keeps and what it merges, and `MergeOccurrences` that the `indexOf` scan builds it |
| Bpe.MergePassSpelling | src/index.ts:126-149 | a merge pass keeps the concatenation of the symbols |
| Bpe.MergePassShrinks | src/index.ts:141-143 | a pass over a word that contains the pair makes the word strictly shorter, so `bpe`'s loop ends |
| Bpe.MergePassSymbols | src/index.ts:141-147 | every symbol after a pass is an old symbol or `first + second` |
| Bpe.MergePassSkips | src/index.ts:131-138 | symbols before the next `first` are copied unchanged |
| Bpe.MergeOccurrences | src/index.ts:126-149 | the `indexOf` scan builds exactly the merge pass: non-overlapping occurrences, from left to right |
| Bpe.MergeLoop | src/index.ts:108-155 | the loop's result is no longer than the word and not empty for a non-empty word, and no two adjacent symbols form a ranked pair |
| Bpe.MergeLoopSpelling | src/index.ts:149-157 | the loop keeps the concatenation of the symbols, so the merged word of `InitialWord(token)` still spells `token + '</w>'` |
| Bpe.MergeLoopSymbols | src/index.ts:141-149 | every merged symbol is a symbol of the word or the concatenation of a ranked pair |
| Bpe.MergeLoopKeepsOut | src/index.ts:157 | a character that is in no symbol of the word is in no merged symbol, so the space join can be split back |
| Bpe.MergeWord | src/index.ts:108-155 | the `while (1)` loop of `bpe` computes exactly `MergeLoop` |
| Bpe.BpeSpec | src/index.ts:100-157 | what `bpe` returns for a token that is not cached: the merged word of the initial word, joined by spaces; `ShortToken`, `MergeLoopSpelling` and `MergeLoopKeepsOut` state its spelling and that it splits back |
| Bpe.ShortToken | src/index.ts:102-106 | a token of at most one character gives `token + '</w>'` |
| Vocabulary.Vocab | src/index.ts:81-86 | the vocabulary has 512 + number of merges + 2 entries, the start-of-text token at 512 + m and the end-of-text token at 513 + m; `VocabLayout` states every other entry |
| Vocabulary.BuildVocab | src/index.ts:81-86 | the push loop builds the vocabulary: base list, base list with `'</w>'`, merges, control tokens |
| Vocabulary.VocabLayout | src/index.ts:81-86 | the length is 512 + number of merges + 2; entry i is base symbol i; entry 256+i is entry i plus `'</w>'`; merge k is at 512+k; the control tokens are last |
| Vocabulary.ControlTokenIds | src/index.ts:86-87 | the control tokens get ids 512+m and 513+m; with 48894 merges these are 49406 and 49407, the ids `encodeForCLIP` writes |
| Vocabulary.MergeRanks | src/index.ts:89 | a pair has a rank exactly when it is a merge; merge k ranks at least k; with no repeated merge, merge k ranks exactly k |
| Vocabulary.EncoderDecoder | src/index.ts:87-88 | `decoder[encoder[v]] == v` for every entry and `encoder[decoder[id]] == id` for every id; with distinct entries the ids are exactly 0..n-1 and id i decodes to entry i |
| Vocabulary.ByteSymbolsInVocab | src/index.ts:81-82 | every byte's symbol, bare and with `'</w>'`, is in the vocabulary |
| Vocabulary.MergedSymbolsInVocab | src/index.ts:83-89 | the concatenation of every ranked pair is in the vocabulary |
| Vocabulary.VocabCovers | src/index.ts:81-86 | the vocabulary covers all byte symbols, with and without `'</w>'`, all merges and both control tokens |
| ClipTokenizer.SeedCache | src/index.ts:90 | the keys of the seeded cache are exactly the two control tokens, and each maps to itself |
| ClipTokenizer.PackForClip | src/index.ts:173-180 | 77 ids; id 0 is 49406; then the first min(n, 75) encoded ids; 49407 at index min(n+1, 76); zeros after it |
| ClipTokenizer.Tokenizer.constructor | src/index.ts:74-90 | the tables are those derived from the merges: byte tables, vocabulary, `encoder`, `decoder` and ranks. The cache starts as the seeded cache and satisfies the cache invariant |
| ClipTokenizer.Tokenizer.Bpe | src/index.ts:94-160 | the result is the pure specification (a control token for itself, otherwise the space-joined `MergeLoop`). A hit is an own entry of the cache only: this is the corrected reading of line 95 (see Findings), where the source also hits names inherited from `Object.prototype`. A hit leaves the cache unchanged. A token of at most one character is not cached. Any other token is added to the cache with its result; no entry is removed, and the cache invariant holds |
| ClipTokenizer.Tokenizer.Remap | src/index.ts:166 | each character goes through `byteEncoder` to the symbol of its byte |
| ClipTokenizer.Tokenizer.InitialSymbols | src/index.ts:100 | the initial word of a remapped chunk has no spaces and only vocabulary symbols |
| ClipTokenizer.Tokenizer.MergedSymbols | src/index.ts:141-149 | merging vocabulary symbols leaves vocabulary symbols |
| ClipTokenizer.Tokenizer.ControlTokenSplit | src/index.ts:95-97 | a control token splits into itself, and it has an id |
| ClipTokenizer.Tokenizer.ChunkSplit | src/index.ts:157 | for a chunk that is not a control token, `bpe(...).split(' ')` is exactly the merged word |
| ClipTokenizer.Tokenizer.ChunkSymbols | src/index.ts:166-167 | every symbol `bpe(...).split(' ')` yields has an id: the `encoder` lookup never misses |
| ClipTokenizer.Tokenizer.Lookup | src/index.ts:167 | one id per symbol, each symbol's `encoder` entry |
| ClipTokenizer.Tokenizer.LookupDecodes | src/index.ts:167 | `decoder` maps the looked-up ids back to the symbols |
| ClipTokenizer.Tokenizer.ChunkIds | src/index.ts:166-167 | the ids of one chunk: `bpe` of the remapped chunk, split on spaces, through `encoder`; `ChunkSymbols` states that every lookup hits and `ChunkText` what the ids decode to |
| ClipTokenizer.Tokenizer.EncodeSpec | src/index.ts:165-168 | the ids of all chunks, one chunk after the other; `EncodeSpecAppend` and `EncodeSpecStep` state that it distributes over concatenation, and `DecodeEncode` what it decodes to |
| ClipTokenizer.Tokenizer.EncodeSpecAppend | src/index.ts:165-168 | encoding two lists of chunks one after the other gives their ids one after the other |
| ClipTokenizer.Tokenizer.EncodeSpecStep | src/index.ts:165-168 | the ids of the first k+1 chunks are those of the first k followed by those of chunk k |
| ClipTokenizer.Tokenizer.EncodeChunk | src/index.ts:166-167 | the per-chunk step yields the chunk's specified ids. The new cache is the old one, plus the remapped chunk with its `bpe` result when the chunk has at least two characters and its remapped form was not cached yet; the cache invariant holds |
| ClipTokenizer.Tokenizer.Encode | src/index.ts:162-170 | the loop over chunks yields exactly the specified ids of all chunks. The new cache keys are the old keys plus exactly the remapped chunks of at least two characters; the cache invariant holds |
| ClipTokenizer.Tokenizer.EncodeForClip | src/index.ts:173-180 | the output has the CLIP layout around the specified encoding. The new cache keys are the old keys plus exactly the remapped chunks of at least two characters |
| ClipTokenizer.Tokenizer.Pieces | src/index.ts:183 | each id becomes its vocabulary entry, or "" when `decoder` has no entry |
| ClipTokenizer.Tokenizer.Piece | src/index.ts:183 | one id through `decoder`, "" for an id it lacks; `Pieces` and `LookupDecodes` state it over runs of ids |
| ClipTokenizer.Tokenizer.DecoderText | src/index.ts:183 | the `decoder` pieces of the ids joined with ""; `DecoderTextAppend` states that it distributes over concatenation |
| ClipTokenizer.Tokenizer.ByteChar | src/index.ts:184-186 | one character through `byteDecoder` and `String.fromCharCode`, NUL for a character it lacks; `ByteTextOfRemap` states that it undoes the byte encoder |
| ClipTokenizer.Tokenizer.ByteText | src/index.ts:184-187 | each character goes through `byteDecoder` to the character of its byte, or to NUL when `byteDecoder` has no entry |
| ClipTokenizer.Tokenizer.DecoderTextAppend | src/index.ts:183 | decoding two runs of ids one after the other concatenates their texts |
| ClipTokenizer.Tokenizer.ByteTextOfRemap | src/index.ts:184-187 | the byte decoding of a remapped chunk is the chunk |
| ClipTokenizer.Tokenizer.ByteTextOfMarker | src/index.ts:184-187 | the byte decoding leaves `'</w>'` unchanged |
| ClipTokenizer.Tokenizer.ChunkText | src/index.ts:183 | the ids of a chunk without '<' decode to the remapped chunk followed by `'</w>'` |
| ClipTokenizer.Tokenizer.Decode | src/index.ts:182-190 | `decode`: `decoder`, then `byteDecoder`, then `'</w>'` to space; `DecodeChunk` and `DecodeEncode` state what it gives for an encoding |
| ClipTokenizer.Tokenizer.DecodeChunk | src/index.ts:182-190 | decoding a chunk's ids followed by other ids gives the chunk, a space, and then the decoding of the rest |
| ClipTokenizer.Tokenizer.DecodeEncode | src/index.ts:182-190 | `decode(encode(chunks))` is the chunks joined by spaces, plus a final space, for chunks of characters below 256 without '<' |
| ClipTokenizer.Tokenizer.ConstructorRoundTrip | src/index.ts:95-97 | with the cache read by own entries only, the word "constructor" encodes and decodes back to "constructor " |
| ClipTokenizer.ReadCacheAsWritten | src/index.ts:95-97 | a read of the object-literal cache misses only when the key is neither an own entry nor a name inherited from `Object.prototype` |
| ClipTokenizer.ChunkSymbolsAsWritten | src/index.ts:166-167 | the per-chunk step as written fails exactly on a token that is not cached but is an inherited name |
| ClipTokenizer.ConstructorThrows | src/index.ts:90-97 | on a fresh tokenizer, the chunk "constructor" reaches `split` on a function and `encode` throws |

## Left out

- `basicClean` with `htmlDecode`, `whitespaceClean` and `toLowerCase` are
  not part of this model. They rely on the `html-entities` library, on
  regular-expression `\s` and on Unicode case mapping.
- The pre-tokenizer `pat` and `matchAll` are not part of this model. They
  rely on the JavaScript regular-expression engine and its `\p{L}`/`\p{N}`
  classes. `Encode` takes the list of chunks instead.
- Loading `bpe_simple_vocab_16e6`, `slice(1, 48895)` and `merge.split(" ")`
  are not part of this model. The merges are a parameter, a list of pairs,
  so a merge line without exactly one space is not modelled.
  `ControlTokenIds` states the ids for the asset's 48894 merges.
- The `"·😎·"`-joined keys of `bpeRanks` are modelled as tuple keys. The two
  agree, because every symbol is made of code points below 324 and so never
  contains 😎.
- The `Infinity` start of `minRank` is an `Option` (None).
- ClipTokenizer.Tokenizer.Encode: requires every chunk to be non-empty and
  made of characters below 256. The pre-tokenizer never yields an empty
  chunk. For a character at or above 256, `byteEncoder` gives `undefined`,
  `join` drops it, and a chunk left empty looks up an id `encoder` lacks.
- ClipTokenizer.Tokenizer.DecodeEncode: holds only for chunks without '<'.
  In such chunks, `'</w>'` can only come from the end-of-word marker.
- `decode` takes numeric ids. The source takes strings and looks them up
  among `decoder`'s string keys.
- `byteDecoder` maps to byte values. The source stores them as digit
  strings and converts them with `Number`.
- ByteCodec.Range: excludes a zero step from a start beyond `stop`, where
  the source loops forever.
- The `pat` field and the TypeScript declarations in `dist/` are not part
  of this model.
- `encodeForCLIP` (src/index.ts:173-180) keeps at most 75 ids of the
  encoding: `unshift` puts the start token first (line 175), and only then
  does `slice(0, 76)` cut the list (line 176). `PackForClip` models this.
- No merge line is checked (src/index.ts:77-79): the merge list is a
  parameter, and a malformed list raises no error.
- `decode` reads an id that `decoder` lacks as `undefined`, which
  `join("")` turns into "" (src/index.ts:183). `Piece` models this.

## Findings

| source | as written | input that shows it | evidently intended | confidence | as-written member | corrected member |
|---|---|---|---|---|---|---|
| src/index.ts:95-97 | `this.cache` is an object literal, so `this.cache[token] !== undefined` also holds for names inherited from `Object.prototype`. `bpe` then returns that member (a function), and `.split(' ')` on it throws in `encode` | the text "constructor": it is lowercase, one letter chunk, and the byte codec maps each of its characters to itself | only own cache entries count as hits, so "constructor" is tokenized like any other word | not executed | ClipTokenizer.ConstructorThrows | ClipTokenizer.Tokenizer.ConstructorRoundTrip |
