/**
 * The byte-to-Unicode remapping of byte-level BPE (`bytesToUnicode` in
 * src/index.ts): every byte value gets a printable symbol, so that any byte
 * string can be spelled with the symbols of the vocabulary. Bytes in the three
 * printable Latin-1 ranges keep their own code point; the other 68 bytes (control
 * characters, space, DEL, the non-breaking space and the soft hyphen) get
 * the code points 256, 257, ... in increasing byte order.
 *
 * The module also holds the 256-symbol base list that the tokenizer hardcodes
 * as the first entries of its vocabulary, and proves that this list is the
 * byte map's values in the order the map was built.
 */
module ByteCodec {
  import opened Wrappers
  import opened Tables

  /** A byte value, as the numeric keys 0..255 of `byteEncoder`. */
  type Byte = b: int | 0 <= b < 256

  /** The bytes that map to themselves: '!'..'~', '¡'..'¬' and '®'..'ÿ'. */
  predicate IsPrintable(b: int) {
    (33 <= b <= 126) || (161 <= b <= 172) || (174 <= b <= 255)
  }

  /** The non-printable bytes below `b`, in increasing order. */
  function OtherBytes(b: nat): (s: seq<Byte>)
    requires b <= 256
    ensures |s| <= b
  {
    if b == 0 then []
    else OtherBytes(b - 1) + (if IsPrintable(b - 1) then [] else [b - 1])
  }

  /**
   * The symbol for byte `b`: its own code point if it is printable, and
   * 256 + n if it is the n-th non-printable byte (counting from 0).
   */
  function ByteToChar(b: Byte): char {
    if IsPrintable(b) then b as char else (256 + |OtherBytes(b)|) as char
  }

  /** The table `byteEncoder`: byte value to symbol, for all 256 bytes. */
  function ByteEncoder(): (m: map<Byte, char>)
    ensures forall b: Byte :: b in m && m[b] == ByteToChar(b)
    ensures Injective(m)
  {
    ByteToCharIsInjective();
    map b: Byte | 0 <= b < 256 :: ByteToChar(b)
  }

  /** A table that maps every byte to its symbol is the byte encoder. */
  lemma ByteEncoderIsUnique(m: map<Byte, char>)
    requires forall b: Byte :: b in m && m[b] == ByteToChar(b)
    ensures m == ByteEncoder()
  {
  }

  /** The table `byteDecoder`: the byte encoder read backwards. */
  function ByteDecoder(): map<char, Byte> {
    Invert(ByteEncoder())
  }

  /** The printable bytes, in the order of the three ranges of `bs`. */
  function PrintableBytes(): seq<Byte> {
    seq(94, k requires 0 <= k < 94 => 33 + k) +
    seq(12, k requires 0 <= k < 12 => 161 + k) +
    seq(82, k requires 0 <= k < 82 => 174 + k)
  }

  /** The printable list holds the 188 printable bytes, each once. */
  lemma PrintableBytesMembers()
    ensures |PrintableBytes()| == 188
    ensures forall i :: 0 <= i < 188 ==> IsPrintable(PrintableBytes()[i])
    ensures forall x: Byte :: x in PrintableBytes() <==> IsPrintable(x)
  {
    assert forall x: Byte :: IsPrintable(x) ==> PrintableBytes()[PrintableIndex(x)] == x;
  }

  /** Where a printable byte sits in `PrintableBytes()`. */
  function PrintableIndex(x: Byte): (i: nat)
    requires IsPrintable(x)
    ensures i < 188
  {
    if x <= 126 then x - 33 else if x <= 172 then x - 161 + 94 else x - 174 + 106
  }

  /**
   * The order in which `bytesToUnicode` inserts the bytes into its table:
   * the printable ranges first, then the other bytes in increasing order.
   */
  function ByteOrder(): seq<Byte> {
    PrintableBytes() + OtherBytes(256)
  }

  /** Whether `range` with this `step` goes on past the value `i`. */
  predicate Continues(i: int, stop: int, step: int) {
    if step > 0 then i < stop else i > stop
  }

  /**
   * `range(start, stop?, step)`: the arithmetic progression from `start`
   * that stops before passing `stop`. With `stop == None` (the one-argument
   * form `range(n)`) it counts from 0 to `start`. A zero step counting
   * downwards never ends in the source, so it is excluded.
   */
  method Range(start: int, stop: Option<int>, step: int) returns (r: seq<int>)
    requires step != 0 || (if stop.None? then 0 <= start else start <= stop.value)
    ensures if stop.None? then IsRange(r, 0, start, step) else IsRange(r, start, stop.value, step)
  {
    var lo, hi := start, 0;
    if stop.None? {
      lo, hi := 0, start;
    } else {
      hi := stop.value;
    }
    if (step > 0 && lo >= hi) || (step < 0 && lo <= hi) {
      return [];
    }
    r := [];
    var i := lo;
    while Continues(i, hi, step)
      invariant i == lo + |r| * step
      invariant step != 0 || !Continues(i, hi, step)
      invariant forall k :: 0 <= k < |r| ==> r[k] == lo + k * step && Continues(r[k], hi, step)
      decreases if step > 0 then hi - i else i - hi
    {
      r := r + [i];
      i := i + step;
    }
  }

  /**
   * `r` counts from `lo` by `step` for as long as it has not passed `hi`,
   * and stops at the first value that has.
   */
  ghost predicate IsRange(r: seq<int>, lo: int, hi: int, step: int) {
    && (forall k :: 0 <= k < |r| ==> r[k] == lo + k * step && Continues(r[k], hi, step))
    && !Continues(lo + |r| * step, hi, step)
  }

  /** A unit-step `range` result is the consecutive run `lo, lo + 1, ..., hi - 1`. */
  lemma UnitRange(lo: int, hi: int, r: seq<int>)
    requires lo <= hi
    requires IsRange(r, lo, hi, 1)
    ensures r == seq(hi - lo, k requires 0 <= k < hi - lo => lo + k)
  {
    if |r| > 0 {
      assert r[|r| - 1] == lo + |r| - 1;
    }
  }

  /** The three unit-step runs that open `bs` are the printable bytes. */
  lemma PrintableRuns(r1: seq<int>, r2: seq<int>, r3: seq<int>)
    requires IsRange(r1, 33, 127, 1) && IsRange(r2, 161, 173, 1) && IsRange(r3, 174, 256, 1)
    ensures r1 + r2 + r3 == PrintableBytes()
  {
    UnitRange(33, 127, r1);
    UnitRange(161, 173, r2);
    UnitRange(174, 256, r3);
  }

  /**
   * `bytesToUnicode`: start `bs` with the printable ranges, append every
   * other byte in increasing order while `cs` receives 256, 257, ..., and pair
   * `bs[i]` with the character of code point `cs[i]`. The table it builds is
   * exactly `ByteEncoder()`.
   */
  method BytesToUnicode() returns (m: map<Byte, char>)
    ensures forall b: Byte :: b in m && m[b] == ByteToChar(b)
  {
    var r1 := Range('!' as int, Some('~' as int + 1), 1);
    var r2 := Range('¡' as int, Some('¬' as int + 1), 1);
    var r3 := Range('®' as int, Some('ÿ' as int + 1), 1);
    PrintableRuns(r1, r2, r3);
    var bs: seq<Byte> := r1 + r2 + r3;
    var cs: seq<int> := bs;
    var n := 0;
    var all := Range(256, None, 1);
    UnitRange(0, 256, all);
    for k := 0 to |all|
      invariant BuiltUpTo(k, n, bs, cs)
    {
      var b: Byte := all[k];
      assert b == k;
      BuildStep(k, n, bs, cs);
      if b !in bs {
        bs := bs + [b];
        cs := cs + [256 + n];
        n := n + 1;
      }
    }
    OtherBytesCount(256);
    ShiftedCodesAreChars(cs);
    var chars := seq(|cs|, i requires 0 <= i < |cs| => cs[i] as char);
    m := FromEntries(bs, chars);
    TableOfConstructionOrder(bs, cs, m);
  }

  /** The code points 256, 257, ... handed to the first `n` non-printable bytes. */
  function ShiftedCodes(n: nat): seq<int> {
    seq(n, j requires 0 <= j < n => 256 + j)
  }

  /**
   * The state of `bytesToUnicode` after the loop has looked at bytes `0..k-1`:
   * `bs` holds the printable bytes and then the other bytes below `k`, and
   * `cs` their code points, `n` of them past 255.
   */
  ghost predicate BuiltUpTo(k: nat, n: nat, bs: seq<Byte>, cs: seq<int>) {
    && k <= 256
    && n == |OtherBytes(k)|
    && bs == PrintableBytes() + OtherBytes(k)
    && cs == PrintableBytes() + ShiftedCodes(n)
  }

  /** One round of the loop: byte `k` is appended exactly when it is not there yet. */
  lemma BuildStep(k: nat, n: nat, bs: seq<Byte>, cs: seq<int>)
    requires k < 256 && BuiltUpTo(k, n, bs, cs)
    ensures k in bs ==> BuiltUpTo(k + 1, n, bs, cs)
    ensures k !in bs ==> BuiltUpTo(k + 1, n + 1, bs + [k], cs + [256 + n])
  {
    NextByteIsNew(k);
    ShiftedCodesStep(n);
  }

  /** Byte `k` is already in `bs` after the first `k` rounds exactly when it is printable. */
  lemma NextByteIsNew(k: nat)
    requires k < 256
    ensures k in PrintableBytes() + OtherBytes(k) <==> IsPrintable(k)
    ensures PrintableBytes() + OtherBytes(k + 1) ==
            if IsPrintable(k) then PrintableBytes() + OtherBytes(k) else PrintableBytes() + OtherBytes(k) + [k]
  {
    PrintableBytesMembers();
    OtherBytesMembership(k);
  }

  /** Handing out one more code point appends the next one. */
  lemma ShiftedCodesStep(n: nat)
    ensures PrintableBytes() + ShiftedCodes(n + 1) == PrintableBytes() + ShiftedCodes(n) + [256 + n]
  {
    assert ShiftedCodes(n + 1) == ShiftedCodes(n) + [256 + n];
  }

  /** In the construction order, each byte stands beside the code point of its symbol. */
  lemma ConstructionOrderCodes()
    ensures |ByteOrder()| == |PrintableBytes() + ShiftedCodes(68)| == 256
    ensures forall i :: 0 <= i < 256 ==> (PrintableBytes() + ShiftedCodes(68))[i] == ByteToChar(ByteOrder()[i]) as int
  {
    OtherBytesCount(256);
    forall i | 0 <= i < 256
      ensures (PrintableBytes() + ShiftedCodes(68))[i] == ByteToChar(ByteOrder()[i]) as int
    {
      if i >= 188 {
        OtherBytesIndex(i - 188);
      }
    }
  }

  /** A table that pairs the construction order with those code points has every byte's symbol. */
  lemma TableOfConstructionOrder(bs: seq<Byte>, cs: seq<int>, m: map<Byte, char>)
    requires bs == ByteOrder() && cs == PrintableBytes() + ShiftedCodes(68)
    requires forall i :: 0 <= i < |bs| ==> bs[i] in m
    requires forall b :: b in m ==> exists i :: 0 <= i < |bs| && i < |cs| && bs[i] == b && m[b] as int == cs[i]
    ensures forall b: Byte :: b in m && m[b] == ByteToChar(b)
  {
    ConstructionOrderCodes();
    PrintableBytesMembers();
    OtherBytesMembership(256);
    forall b: Byte
      ensures b in m && m[b] == ByteToChar(b)
    {
      assert b in bs;
      var i :| 0 <= i < |bs| && bs[i] == b;
      var j :| 0 <= j < |bs| && j < |cs| && bs[j] == b && m[b] as int == cs[j];
    }
  }

  /** The code points of the construction order are all characters. */
  lemma ShiftedCodesAreChars(cs: seq<int>)
    requires cs == PrintableBytes() + ShiftedCodes(68)
    ensures |cs| == 256 && forall i :: 0 <= i < |cs| ==> 0 <= cs[i] < 324
  {
  }

  /** The count of non-printable bytes below `b`, in closed form. */
  lemma {:induction false} OtherBytesCount(b: nat)
    requires b <= 256
    ensures |OtherBytes(b)| == if b <= 33 then b else if b <= 127 then 33
                               else if b <= 161 then b - 94 else if b <= 173 then 67 else 68
  {
    if b > 0 {
      OtherBytesCount(b - 1);
    }
  }

  /** The list of non-printable bytes only grows as the bound rises. */
  lemma {:induction false} OtherBytesPrefix(b: nat, c: nat)
    requires b <= c <= 256
    ensures OtherBytes(b) <= OtherBytes(c)
    decreases c - b
  {
    if b < c {
      OtherBytesPrefix(b, c - 1);
    }
  }

  /** `OtherBytes(c)` holds exactly the non-printable bytes below `c`. */
  lemma {:induction false} OtherBytesMembership(c: nat)
    requires c <= 256
    ensures forall x: Byte :: x in OtherBytes(c) <==> !IsPrintable(x) && x < c
  {
    if c > 0 {
      OtherBytesMembership(c - 1);
    }
  }

  /** Every entry of `OtherBytes(c)` is a non-printable byte below `c`. */
  lemma {:induction false} OtherBytesMembers(c: nat)
    requires c <= 256
    ensures forall k :: 0 <= k < |OtherBytes(c)| ==> !IsPrintable(OtherBytes(c)[k]) && OtherBytes(c)[k] < c
  {
    if c > 0 {
      OtherBytesMembers(c - 1);
    }
  }

  /**
   * The non-printable bytes are numbered upwards in byte order: the n-th one
   * is the byte that has n non-printable bytes below it.
   */
  lemma OtherBytesAt(b: Byte)
    requires !IsPrintable(b)
    ensures |OtherBytes(b)| < |OtherBytes(256)| == 68
    ensures OtherBytes(256)[|OtherBytes(b)|] == b
  {
    OtherBytesPrefix(b + 1, 256);
    OtherBytesCount(256);
    assert OtherBytes(b + 1) == OtherBytes(b) + [b];
  }

  /** The entry at position k of the non-printable list has exactly k non-printable bytes below it. */
  lemma OtherBytesIndex(k: nat)
    requires k < |OtherBytes(256)|
    ensures !IsPrintable(OtherBytes(256)[k]) && |OtherBytes(OtherBytes(256)[k])| == k
  {
    OtherBytesMembers(256);
    var b := OtherBytes(256)[k];
    OtherBytesAt(b);
    OtherBytesCount(256);
    var j := |OtherBytes(b)|;
    if j != k {
      OtherBytesAt(OtherBytes(256)[j]);
      OtherBytesCount(b);
      var i := if j < k then j else k;
      OtherBytesDistinct(256);
    }
  }

  /** The non-printable list is strictly increasing. */
  lemma {:induction false} OtherBytesDistinct(c: nat)
    requires c <= 256
    ensures forall i, j :: 0 <= i < j < |OtherBytes(c)| ==> OtherBytes(c)[i] < OtherBytes(c)[j]
  {
    if c > 0 {
      OtherBytesDistinct(c - 1);
      OtherBytesMembers(c - 1);
    }
  }

  /**
   * The code points of the byte map: a printable byte keeps its own, and the
   * other bytes fill 256..323 in byte order.
   */
  lemma ByteToCharCodePoint(b: Byte)
    ensures ByteToChar(b) as int == if IsPrintable(b) then b
                                    else if b <= 32 then 256 + b
                                    else if b <= 160 then 256 + b - 94
                                    else 256 + 67
  {
    OtherBytesCount(b);
  }

  /** No two bytes share a symbol, so `byteDecoder` is well defined. */
  lemma ByteToCharIsInjective()
    ensures forall b1: Byte, b2: Byte :: ByteToChar(b1) == ByteToChar(b2) ==> b1 == b2
  {
    forall b1: Byte, b2: Byte | ByteToChar(b1) == ByteToChar(b2)
      ensures b1 == b2
    {
      ByteToCharCodePoint(b1);
      ByteToCharCodePoint(b2);
    }
  }

  /**
   * `byteDecoder[byteEncoder[b]] == b` for every byte, and the decoder knows
   * exactly the 256 symbols of the encoder, each of which it maps back.
   */
  lemma ByteCodecRoundTrip()
    ensures forall b: Byte :: ByteToChar(b) in ByteDecoder() && ByteDecoder()[ByteToChar(b)] == b
    ensures forall c :: c in ByteDecoder() ==> ByteToChar(ByteDecoder()[c]) == c
  {
  }

  /** No byte is spelled with a space, so the symbols of a remapped chunk never contain one. */
  lemma ByteToCharIsNotSpace(b: Byte)
    ensures ByteToChar(b) != ' '
  {
    ByteToCharCodePoint(b);
  }

  // The base vocabulary, as the source hardcodes it (src/index.ts line 81),
  // in nine runs of consecutive code points.
  const PunctuationAndDigits: string := "!\"#$%&\'()*+,-./0123456789:;<=>?@"  // '!'..'@'
  const UpperCase: string := "ABCDEFGHIJKLMNOPQRSTUVWXYZ[\\]^_`"  // 'A'..'`'
  const LowerCase: string := "abcdefghijklmnopqrstuvwxyz{|}~"  // 'a'..'~'
  const LatinOneSigns: string := "¡¢£¤¥¦§¨©ª«¬"  // '¡'..'¬'
  const LatinOneHigh: string := "®¯°±²³´µ¶·¸¹º»¼½¾¿ÀÁÂÃÄÅÆÇÈÉÊËÌÍ"  // '®'..'Í'
  const LatinOneLetters: string := "ÎÏÐÑÒÓÔÕÖ×ØÙÚÛÜÝÞßàáâãäåæçèéêëìí"  // 'Î'..'í'
  const LatinOneTail: string := "îïðñòóôõö÷øùúûüýþÿ"  // 'î'..'ÿ'
  const ShiftedLow: string := "ĀāĂăĄąĆćĈĉĊċČčĎďĐđĒēĔĕĖėĘęĚěĜĝĞğ"  // 'Ā'..'ğ'
  const ShiftedHigh: string := "ĠġĢģĤĥĦħĨĩĪīĬĭĮįİıĲĳĴĵĶķĸĹĺĻļĽľĿŀŁłŃ"  // 'Ġ'..'Ń'
  /** The 256 symbols that open the vocabulary, in their hardcoded order. */
  const AsciiPrintable: string := PunctuationAndDigits + UpperCase + LowerCase
  const LatinOneRest: string := LatinOneHigh + LatinOneLetters + LatinOneTail
  const Shifted: string := ShiftedLow + ShiftedHigh

  /** The 256 symbols of the base vocabulary. */
  const BaseChars: string := AsciiPrintable + LatinOneSigns + LatinOneRest + Shifted

  /** The base list has one symbol per byte. */
  lemma BaseCharsLength()
    ensures |BaseChars| == 256
  {
  }

  /** `s` spells the `n` consecutive code points from `start` on. */
  ghost predicate IsRun(s: string, n: nat, start: int) {
    |s| == n && forall i :: 0 <= i < n ==> s[i] as int == start + i
  }

  lemma PunctuationAndDigitsRun() ensures IsRun(PunctuationAndDigits, 32, 33) { }
  lemma UpperCaseRun() ensures IsRun(UpperCase, 32, 65) { }
  lemma LowerCaseRun() ensures IsRun(LowerCase, 30, 97) { }
  lemma LatinOneSignsRun() ensures IsRun(LatinOneSigns, 12, 161) { }
  lemma LatinOneHighRun() ensures IsRun(LatinOneHigh, 32, 174) { }
  lemma LatinOneLettersRun() ensures IsRun(LatinOneLetters, 32, 206) { }
  lemma LatinOneTailRun() ensures IsRun(LatinOneTail, 18, 238) { }
  lemma ShiftedLowRun() ensures IsRun(ShiftedLow, 32, 256) { }
  lemma ShiftedHighRun() ensures IsRun(ShiftedHigh, 36, 288) { }

  /** A run followed by the run that continues it is one longer run. */
  lemma RunsJoin(s: string, n: nat, t: string, m: nat, start: int)
    requires IsRun(s, n, start) && IsRun(t, m, start + n)
    ensures IsRun(s + t, n + m, start)
  {
    forall i | 0 <= i < n + m
      ensures (s + t)[i] as int == start + i
    {
      if i >= n {
        assert (s + t)[i] == t[i - n];
      }
    }
  }

  /** The code point the base list holds at position `i`. */
  function BaseCodePoint(i: int): int {
    if i < 94 then 33 + i else if i < 106 then 161 + (i - 94)
    else if i < 188 then 174 + (i - 106) else 256 + (i - 188)
  }

  /** The four groups of the base list, one after the other. */
  lemma GroupsJoin(a: string, b: string, c: string, d: string)
    requires IsRun(a, 94, 33) && IsRun(b, 12, 161) && IsRun(c, 82, 174) && IsRun(d, 68, 256)
    ensures |a + b + c + d| == 256
    ensures forall i :: 0 <= i < 256 ==> (a + b + c + d)[i] as int == BaseCodePoint(i)
  {
    forall i | 0 <= i < 256
      ensures (a + b + c + d)[i] as int == BaseCodePoint(i)
    {
      if i < 94 {
        assert (a + b + c + d)[i] == a[i];
      } else if i < 106 {
        assert (a + b + c + d)[i] == b[i - 94];
      } else if i < 188 {
        assert (a + b + c + d)[i] == c[i - 106];
      } else {
        assert (a + b + c + d)[i] == d[i - 188];
      }
    }
  }

  /**
   * The hardcoded base list, read as code points: 33..126, 161..172,
   * 174..255, then 256..323.
   */
  lemma BaseCharsCodePoints()
    ensures |BaseChars| == 256
    ensures forall i :: 0 <= i < 256 ==> BaseChars[i] as int == BaseCodePoint(i)
  {
    PunctuationAndDigitsRun();
    UpperCaseRun();
    LowerCaseRun();
    RunsJoin(PunctuationAndDigits, 32, UpperCase, 32, 33);
    RunsJoin(PunctuationAndDigits + UpperCase, 64, LowerCase, 30, 33);
    LatinOneSignsRun();
    LatinOneHighRun();
    LatinOneLettersRun();
    LatinOneTailRun();
    RunsJoin(LatinOneHigh, 32, LatinOneLetters, 32, 174);
    RunsJoin(LatinOneHigh + LatinOneLetters, 64, LatinOneTail, 18, 174);
    ShiftedLowRun();
    ShiftedHighRun();
    RunsJoin(ShiftedLow, 32, ShiftedHigh, 36, 256);
    GroupsJoin(AsciiPrintable, LatinOneSigns, LatinOneRest, Shifted);
  }

  /**
   * The hardcoded base list is the byte map's values in the order in which
   * `bytesToUnicode` inserted them (printable ranges first, then the others).
   */
  lemma BaseCharsInConstructionOrder()
    ensures |BaseChars| == |ByteOrder()| == 256
    ensures forall i :: 0 <= i < 256 ==> BaseChars[i] == ByteToChar(ByteOrder()[i])
  {
    BaseCharAt(0);
    forall i | 0 <= i < 256
      ensures BaseChars[i] == ByteToChar(ByteOrder()[i])
    {
      BaseCharAt(i);
    }
  }

  /** One position of the base list against the construction order. */
  lemma BaseCharAt(i: nat)
    requires i < 256
    ensures |ByteOrder()| == 256 && |BaseChars| == 256
    ensures BaseChars[i] == ByteToChar(ByteOrder()[i])
  {
    BaseCharsCodePoints();
    OtherBytesCount(256);
    var b := ByteOrder()[i];
    if i < 188 {
      assert b == PrintableBytes()[i];
    } else {
      assert b == OtherBytes(256)[i - 188];
      OtherBytesIndex(i - 188);
    }
  }

  /**
   * The same list is NOT the byte map's values in byte order (which is the
   * order in which a JavaScript object lists integer keys): byte 0 maps to
   * 'Ā', yet the list opens with '!'.
   */
  lemma BaseCharsAreNotInByteOrder()
    ensures BaseChars[0] != ByteToChar(0)
  {
    BaseCharsCodePoints();
    ByteToCharCodePoint(0);
  }

  /** Every byte's symbol occurs in the base list. */
  lemma ByteSymbolInBase(b: Byte)
    ensures ByteToChar(b) in BaseChars
  {
    BaseCharsCodePoints();
    ByteToCharCodePoint(b);
    var i := if 33 <= b <= 126 then b - 33
             else if 161 <= b <= 172 then b - 161 + 94
             else if 174 <= b then b - 174 + 106
             else if b <= 32 then 188 + b else if b <= 160 then 188 + b - 94 else 188 + 67;
    assert BaseCodePoint(i) == ByteToChar(b) as int;
  }
}
