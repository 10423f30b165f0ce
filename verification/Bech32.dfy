/**
 The textual form of addresses: a prefix, the separator ':', the payload in base 32 and eight
 check symbols.  Strings are sequences of characters; everything outside the printable range
 33..126 is rejected by the decoder before any other test looks at it.
 */
module Bech32 {
  import opened Checksum
  import opened BitGroups

  const CHARSET := "qpzry9x8gf2tvdw0s3jn54khce6mua7l"

  datatype Error =
    | InvalidLength
    | InvalidCharacter
    | MixedCase
    | InvalidSeparator
    | NotInCharset
    | ChecksumFailed(expected: string, got: string)

  datatype Result<T> = Ok(value: T) | Err(error: Error)

  /** The data symbols without the checksum. */
  datatype Parts = Parts(prefix: string, symbols: seq<bv8>)

  /** `IndexPanic`: the version byte is read from an empty slice. */
  datatype Decoded = Decoded(prefix: string, payload: seq<bv8>, version: bv8) | Rejected(error: Error) | IndexPanic

  // ---------------------------------------------------------------------------------------
  // Letter case
  // ---------------------------------------------------------------------------------------

  predicate IsPrintable(c: char) {
    33 <= c as int <= 126
  }

  function LowerChar(c: char): char {
    if 'A' <= c <= 'Z' then (c as int + 32) as char else c
  }

  function UpperChar(c: char): char {
    if 'a' <= c <= 'z' then (c as int - 32) as char else c
  }

  function Lower(s: string): (r: string)
    ensures |r| == |s|
  {
    seq(|s|, i requires 0 <= i < |s| => LowerChar(s[i]))
  }

  function Upper(s: string): (r: string)
    ensures |r| == |s|
  {
    seq(|s|, i requires 0 <= i < |s| => UpperChar(s[i]))
  }

  predicate AllPrintable(s: string) {
    forall i :: 0 <= i < |s| ==> IsPrintable(s[i])
  }

  lemma LowerFixed(s: string)
    ensures Lower(s) == s <==> forall i :: 0 <= i < |s| ==> !('A' <= s[i] <= 'Z')
  {
    if Lower(s) == s {
      forall i | 0 <= i < |s|
        ensures !('A' <= s[i] <= 'Z')
      {
        assert Lower(s)[i] == s[i];
      }
    }
  }

  // ---------------------------------------------------------------------------------------
  // Base 32
  // ---------------------------------------------------------------------------------------

  /** The first position at or after `from` that holds `c`, or -1. */
  function IndexByte(s: string, c: char, from: nat): (r: int)
    requires from <= |s|
    ensures r == -1 || (from <= r < |s| && s[r] == c)
    ensures r == -1 ==> forall i :: from <= i < |s| ==> s[i] != c
    decreases |s| - from
  {
    if from == |s| then -1 else if s[from] == c then from else IndexByte(s, c, from + 1)
  }

  /** The last position before `end` that holds `c`, or -1. */
  function LastIndexByte(s: string, c: char, end: nat): (r: int)
    requires end <= |s|
    ensures r == -1 || (0 <= r < end && s[r] == c && forall i :: r < i < end ==> s[i] != c)
    ensures r == -1 ==> forall i :: 0 <= i < end ==> s[i] != c
  {
    if end == 0 then -1 else if s[end - 1] == c then end - 1 else LastIndexByte(s, c, end - 1)
  }

  function CharOf(b: bv8): char
    requires b < 32
  {
    CHARSET[b as int]
  }

  predicate InCharset(c: char) {
    IndexByte(CHARSET, c, 0) >= 0
  }

  function SymbolOf(c: char): bv8
    requires InCharset(c)
  {
    IndexByte(CHARSET, c, 0) as bv8
  }

  lemma CharsetIsDistinct(i: nat, j: nat)
    requires i < j < 32
    ensures CHARSET[i] != CHARSET[j]
  {
  }

  lemma CharsetIsPlain(i: nat)
    requires i < 32
    ensures IsPrintable(CHARSET[i]) && CHARSET[i] != ':' && !('A' <= CHARSET[i] <= 'Z')
  {
  }

  lemma SmallByte(i: nat)
    requires i < 32
    ensures (i as bv8) < 32 && (i as bv8) as int == i
  {
  }

  lemma CharOfSymbolOf(c: char)
    requires InCharset(c)
    ensures SymbolOf(c) < 32 && CharOf(SymbolOf(c)) == c
  {
    SmallByte(IndexByte(CHARSET, c, 0));
  }

  lemma SymbolOfCharOf(b: bv8)
    requires b < 32
    ensures InCharset(CharOf(b)) && SymbolOf(CharOf(b)) == b
  {
    var i := IndexByte(CHARSET, CharOf(b), 0);
    if i < b as int {
      CharsetIsDistinct(i, b as int);
    } else if i > b as int {
      CharsetIsDistinct(b as int, i);
    }
  }

  /** The specification of `EncodeToBase32`; the empty string stands for "not all symbols". */
  function Base32(data: seq<bv8>): string {
    if AreSymbols(data) then seq(|data|, i requires 0 <= i < |data| => CharOf(data[i])) else ""
  }

  predicate IsBase32(s: string) {
    forall i :: 0 <= i < |s| ==> InCharset(s[i])
  }

  /** The specification of `DecodeFromBase32` on strings over the charset. */
  function FromBase32(s: string): (r: seq<bv8>)
    requires IsBase32(s)
    ensures |r| == |s|
  {
    seq(|s|, i requires 0 <= i < |s| => SymbolOf(s[i]))
  }

  lemma Base32Inverts(data: seq<bv8>)
    requires AreSymbols(data)
    ensures IsBase32(Base32(data)) && FromBase32(Base32(data)) == data
  {
    forall i | 0 <= i < |data|
      ensures InCharset(Base32(data)[i]) && SymbolOf(Base32(data)[i]) == data[i]
    {
      SymbolOfCharOf(data[i]);
    }
  }

  lemma FromBase32Inverts(s: string)
    requires IsBase32(s)
    ensures AreSymbols(FromBase32(s)) && Base32(FromBase32(s)) == s
  {
    forall i | 0 <= i < |s|
      ensures FromBase32(s)[i] < 32 && CharOf(FromBase32(s)[i]) == s[i]
    {
      CharOfSymbolOf(s[i]);
    }
  }

  method EncodeToBase32(data: seq<bv8>) returns (result: string)
    ensures result == Base32(data)
  {
    result := [];
    for i := 0 to |data|
      invariant forall k :: 0 <= k < i ==> data[k] < 32
      invariant |result| == i && forall k :: 0 <= k < i ==> result[k] == CharOf(data[k])
    {
      if data[i] >= 32 {
        return "";
      }
      result := result + [CHARSET[data[i] as int]];
    }
  }

  method DecodeFromBase32(base32String: string) returns (r: Result<seq<bv8>>)
    ensures r == if IsBase32(base32String) then Ok(FromBase32(base32String)) else Err(NotInCharset)
  {
    var decoded := [];
    for i := 0 to |base32String|
      invariant IsBase32(base32String[..i]) && decoded == FromBase32(base32String[..i])
    {
      var index := IndexByte(CHARSET, base32String[i], 0);
      if index < 0 {
        return Err(NotInCharset);
      }
      assert base32String[..i + 1] == base32String[..i] + [base32String[i]];
      SmallByte(index);
      decoded := decoded + [index as bv8];
    }
    assert base32String[..|base32String|] == base32String;
    r := Ok(decoded);
  }

  // ---------------------------------------------------------------------------------------
  // Prefix, separator, payload, checksum
  // ---------------------------------------------------------------------------------------

  /** The specification of the internal encoder, on five-bit symbols. */
  function EncodeSymbols(prefix: string, data: seq<bv8>): string {
    prefix + ":" + Base32(data + CheckSymbols(prefix, data))
  }

  /** What the internal decoder makes of the characters after the separator. */
  function DecodeData(prefix: string, data: string): Result<Parts>
    requires |data| >= CHECKSUM_LENGTH
  {
    if !IsBase32(data) then Err(NotInCharset)
    else
      var decoded := FromBase32(data);
      var symbols := decoded[..|decoded| - CHECKSUM_LENGTH];
      if Verifies(prefix, decoded) then Ok(Parts(prefix, symbols))
      else Err(ChecksumFailed(Base32(CheckSymbols(prefix, symbols)), data[|data| - CHECKSUM_LENGTH..]))
  }

  /** The specification of the internal decoder. */
  function DecodeSymbols(encoded: string): Result<Parts> {
    if |encoded| < CHECKSUM_LENGTH + 2 then Err(InvalidLength)
    else if !AllPrintable(encoded) then Err(InvalidCharacter)
    else if encoded != Lower(encoded) && encoded != Upper(encoded) then Err(MixedCase)
    else
      var lower := Lower(encoded);
      var colonIndex := LastIndexByte(lower, ':', |lower|);
      if colonIndex < 1 || colonIndex + CHECKSUM_LENGTH + 1 > |lower| then Err(InvalidSeparator)
      else DecodeData(lower[..colonIndex], lower[colonIndex + 1..])
  }

  /** The specification of `Encode`. */
  function EncodeText(prefix: string, payload: seq<bv8>, version: bv8): string {
    EncodeSymbols(prefix, ToSymbols([version] + payload))
  }

  /** The specification of `Decode`. */
  function DecodeText(encoded: string): Decoded {
    match DecodeSymbols(encoded)
    case Err(error) => Rejected(error)
    case Ok(parts) =>
      var converted := ToBytes(parts.symbols);
      if |converted| == 0 then IndexPanic else Decoded(parts.prefix, converted[1..], converted[0])
  }

  /** A prefix the decoder can return: not empty, printable, without upper-case letters. */
  predicate GoodPrefix(prefix: string) {
    |prefix| >= 1 && AllPrintable(prefix) && forall i :: 0 <= i < |prefix| ==> !('A' <= prefix[i] <= 'Z')
  }

  method InternalEncode(prefix: string, data: seq<bv8>) returns (encoded: string)
    ensures encoded == EncodeSymbols(prefix, data)
  {
    var checksum := CalculateChecksum(prefix, data);
    var combined := data + checksum;
    var base32String := EncodeToBase32(combined);
    encoded := prefix + ":" + base32String;
  }

  method CheckPrintable(encoded: string) returns (printable: bool)
    ensures printable == AllPrintable(encoded)
  {
    for i := 0 to |encoded|
      invariant forall k :: 0 <= k < i ==> IsPrintable(encoded[k])
    {
      if !IsPrintable(encoded[i]) {
        return false;
      }
    }
    printable := true;
  }

  method DecodeAfterSeparator(prefix: string, data: string) returns (r: Result<Parts>)
    requires |data| >= CHECKSUM_LENGTH
    ensures r == DecodeData(prefix, data)
  {
    hide IsBase32, Verifies, CheckSymbols, Base32, FromBase32;
    var converted := DecodeFromBase32(data);
    if converted.Err? {
      return Err(NotInCharset);
    }
    var decoded := converted.value;
    var valid := VerifyChecksum(prefix, decoded);
    if !valid {
      var checksum := data[|data| - CHECKSUM_LENGTH..];
      var check := CalculateChecksum(prefix, decoded[..|decoded| - CHECKSUM_LENGTH]);
      var expected := EncodeToBase32(check);
      return Err(ChecksumFailed(expected, checksum));
    }
    r := Ok(Parts(prefix, decoded[..|decoded| - CHECKSUM_LENGTH]));
  }

  method InternalDecode(encoded: string) returns (r: Result<Parts>)
    ensures r == DecodeSymbols(encoded)
  {
    hide DecodeData, LowerChar, UpperChar, AllPrintable, LastIndexByte;
    if |encoded| < CHECKSUM_LENGTH + 2 {
      return Err(InvalidLength);
    }
    var printable := CheckPrintable(encoded);
    if !printable {
      return Err(InvalidCharacter);
    }
    var lower := Lower(encoded);
    var upper := Upper(encoded);
    if encoded != lower && encoded != upper {
      return Err(MixedCase);
    }
    var colonIndex := LastIndexByte(lower, ':', |lower|);
    if colonIndex < 1 || colonIndex + CHECKSUM_LENGTH + 1 > |lower| {
      return Err(InvalidSeparator);
    }
    r := DecodeAfterSeparator(lower[..colonIndex], lower[colonIndex + 1..]);
  }

  method Encode(prefix: string, payload: seq<bv8>, version: bv8) returns (encoded: string)
    ensures encoded == EncodeText(prefix, payload, version)
  {
    var data := [version] + payload;
    var converted := ConvertBits(data, 8, 5, true);
    encoded := InternalEncode(prefix, converted);
  }

  method Decode(encoded: string) returns (r: Decoded)
    ensures r == DecodeText(encoded)
  {
    hide DecodeSymbols;
    var parts := InternalDecode(encoded);
    if parts.Err? {
      return Rejected(parts.error);
    }
    var converted := ConvertBits(parts.value.symbols, 5, 8, false);
    if |converted| == 0 {
      return IndexPanic;
    }
    r := Decoded(parts.value.prefix, converted[1..], converted[0]);
  }

  // ---------------------------------------------------------------------------------------
  // The decoder inverts the encoder
  // ---------------------------------------------------------------------------------------

  lemma EncodedCharacters(prefix: string, data: seq<bv8>)
    requires GoodPrefix(prefix) && AreSymbols(data)
    ensures var text := Base32(data + CheckSymbols(prefix, data));
            && |text| == |data| + CHECKSUM_LENGTH
            && AllPrintable(EncodeSymbols(prefix, data))
            && Lower(EncodeSymbols(prefix, data)) == EncodeSymbols(prefix, data)
            && forall i :: 0 <= i < |text| ==> text[i] != ':'
  {
    hide CheckSymbols, LowerChar, UpperChar;
    var combined := data + CheckSymbols(prefix, data);
    var text := Base32(combined);
    forall i | 0 <= i < |text|
      ensures IsPrintable(text[i]) && text[i] != ':' && !('A' <= text[i] <= 'Z')
    {
      CharsetIsPlain(combined[i] as int);
    }
    LowerFixed(EncodeSymbols(prefix, data));
  }

  lemma LastColon(s: string, n: nat)
    requires n < |s| && s[n] == ':' && forall i :: n < i < |s| ==> s[i] != ':'
    ensures LastIndexByte(s, ':', |s|) == n
  {
  }

  /** Whatever the internal encoder prints for a good prefix, the internal decoder reads back. */
  lemma SymbolsReadBack(prefix: string, data: seq<bv8>)
    requires GoodPrefix(prefix) && AreSymbols(data)
    ensures DecodeSymbols(EncodeSymbols(prefix, data)) == Ok(Parts(prefix, data))
  {
    hide CheckSymbols, Verifies, LowerChar, UpperChar, IsPrintable, InCharset, SymbolOf, LastIndexByte;
    var check := CheckSymbols(prefix, data);
    var combined := data + check;
    var text := Base32(combined);
    var encoded := EncodeSymbols(prefix, data);
    EncodedCharacters(prefix, data);
    LastColon(encoded, |prefix|);
    assert encoded[..|prefix|] == prefix && encoded[|prefix| + 1..] == text;
    Base32Inverts(combined);
    ChecksumIsUnique(prefix, data, check);
    assert combined[..|combined| - CHECKSUM_LENGTH] == data;
  }

  lemma DataPrintsBack(prefix: string, text: string)
    requires |text| >= CHECKSUM_LENGTH && DecodeData(prefix, text).Ok?
    ensures var parts := DecodeData(prefix, text).value;
            && parts.prefix == prefix && AreSymbols(parts.symbols)
            && EncodeSymbols(prefix, parts.symbols) == prefix + ":" + text
  {
    hide CheckSymbols, Verifies, InCharset, SymbolOf, CharOf;
    var decoded := FromBase32(text);
    var n := |decoded| - CHECKSUM_LENGTH;
    FromBase32Inverts(text);
    assert decoded == decoded[..n] + decoded[n..];
    ChecksumIsUnique(prefix, decoded[..n], decoded[n..]);
  }

  /** Whatever the internal decoder accepts in lower case, the internal encoder prints. */
  lemma SymbolsPrintBack(encoded: string)
    requires Lower(encoded) == encoded && DecodeSymbols(encoded).Ok?
    ensures var Parts(prefix, data) := DecodeSymbols(encoded).value;
            GoodPrefix(prefix) && AreSymbols(data) && EncodeSymbols(prefix, data) == encoded
  {
    hide DecodeData, EncodeSymbols, LowerChar, UpperChar, IsPrintable, LastIndexByte;
    var colonIndex := LastIndexByte(encoded, ':', |encoded|);
    var prefix, text := encoded[..colonIndex], encoded[colonIndex + 1..];
    LowerFixed(encoded);
    DataPrintsBack(prefix, text);
    assert encoded == prefix + ":" + text;
  }

  /**
   The internal decoder is exactly the inverse of the internal encoder: a lower-case string is
   accepted with some prefix and symbols if and only if it is what the encoder prints for them
   and the prefix is a good one.
   */
  lemma DecoderInvertsEncoder(encoded: string, prefix: string, data: seq<bv8>)
    requires Lower(encoded) == encoded
    ensures DecodeSymbols(encoded) == Ok(Parts(prefix, data)) <==>
            GoodPrefix(prefix) && AreSymbols(data) && encoded == EncodeSymbols(prefix, data)
  {
    hide DecodeSymbols, EncodeSymbols;
    if DecodeSymbols(encoded) == Ok(Parts(prefix, data)) {
      SymbolsPrintBack(encoded);
    }
    if GoodPrefix(prefix) && AreSymbols(data) && encoded == EncodeSymbols(prefix, data) {
      SymbolsReadBack(prefix, data);
    }
  }

  lemma SymbolsOfBytes(data: seq<bv8>)
    ensures AreSymbols(ToSymbols(data))
  {
    hide ToSymbols;
    SymbolStream(data);
    forall i | 0 <= i < |ToSymbols(data)|
      ensures ToSymbols(data)[i] < 32
    {
      FitsFive(ToSymbols(data)[i]);
    }
  }

  lemma LowerCharIsGood(c: char)
    requires IsPrintable(c)
    ensures IsPrintable(LowerChar(c)) && !('A' <= LowerChar(c) <= 'Z')
  {
  }

  lemma AcceptedPrefixIsGood(encoded: string)
    requires DecodeSymbols(encoded).Ok?
    ensures GoodPrefix(DecodeSymbols(encoded).value.prefix)
  {
    hide Verifies, CheckSymbols, InCharset, SymbolOf, LastIndexByte, LowerChar, UpperChar, IsPrintable;
    var prefix := DecodeSymbols(encoded).value.prefix;
    forall i | 0 <= i < |prefix|
      ensures IsPrintable(prefix[i]) && !('A' <= prefix[i] <= 'Z')
    {
      assert prefix[i] == LowerChar(encoded[i]);
      LowerCharIsGood(encoded[i]);
    }
  }

  /**
   The round trip through text: whatever the payload and the version, decoding an encoded
   address gives back prefix, payload and version exactly when the prefix is a good one.
   */
  lemma DecodeInvertsEncode(prefix: string, payload: seq<bv8>, version: bv8)
    ensures DecodeText(EncodeText(prefix, payload, version)) == Decoded(prefix, payload, version) <==> GoodPrefix(prefix)
  {
    hide DecodeSymbols, EncodeSymbols, ToSymbols, ToBytes, GoodPrefix;
    var data := [version] + payload;
    SymbolsOfBytes(data);
    BytesSurvive(data);
    if GoodPrefix(prefix) {
      SymbolsReadBack(prefix, ToSymbols(data));
      assert data[1..] == payload;
    }
    if DecodeText(EncodeText(prefix, payload, version)) == Decoded(prefix, payload, version) {
      AcceptedPrefixIsGood(EncodeText(prefix, payload, version));
    }
  }

  lemma EncodeSymbolsInjective(prefix: string, a: seq<bv8>, b: seq<bv8>)
    requires GoodPrefix(prefix) && AreSymbols(a) && AreSymbols(b)
    requires EncodeSymbols(prefix, a) == EncodeSymbols(prefix, b)
    ensures a == b
  {
    hide DecodeSymbols, EncodeSymbols;
    SymbolsReadBack(prefix, a);
    SymbolsReadBack(prefix, b);
  }

  /**
   Re-encoding: for a lower-case string that decodes, encoding the result prints the same
   string exactly when its m data symbols leave fewer than five bits beyond whole bytes and
   those dropped bits are all zero.
   */
  lemma EncodeInvertsDecodeExactlyWhenCanonical(encoded: string)
    requires Lower(encoded) == encoded && DecodeText(encoded).Decoded?
    ensures DecodeSymbols(encoded).Ok?
    ensures var Decoded(prefix, payload, version) := DecodeText(encoded);
            var symbols := DecodeSymbols(encoded).value.symbols;
            EncodeText(prefix, payload, version) == encoded <==>
            5 * |symbols| % 8 < 5 && forall i :: 0 <= i < |DroppedBits(symbols)| ==> !DroppedBits(symbols)[i]
  {
    hide DecodeSymbols, EncodeSymbols, ToSymbols, ToBytes, GoodPrefix, DroppedBits;
    SymbolsPrintBack(encoded);
    var Parts(prefix, symbols) := DecodeSymbols(encoded).value;
    var bytes := ToBytes(symbols);
    assert [bytes[0]] + bytes[1..] == bytes;
    SymbolsFit(symbols);
    SymbolsSurviveExactlyWhenCanonical(symbols);
    SymbolsOfBytes(bytes);
    if EncodeSymbols(prefix, ToSymbols(bytes)) == encoded {
      EncodeSymbolsInjective(prefix, ToSymbols(bytes), symbols);
    }
  }

  lemma DropsOne()
    ensures |DroppedBits([0, 1])| == 2 && DroppedBits([0, 1])[1]
  {
    var symbols: seq<bv8> := [0, 1];
    FlattenLength(symbols, 5);
    assert symbols[1..] == [1] && Flatten(symbols, 5) == LowBits(0, 5) + Flatten([1], 5);
    FlattenOne(1, 5);
    assert Flatten(symbols, 5)[9] == LowBits(1, 5)[4] == Bit(1, 0);
  }

  /** For every good prefix a text that decodes and is not what encoding the result prints: a one is dropped. */
  lemma DroppedBitIsNotPrintedBack(prefix: string)
    requires GoodPrefix(prefix)
    ensures var text := EncodeSymbols(prefix, [0, 1]);
            && Lower(text) == text && DecodeText(text).Decoded?
            && var Decoded(prefix', payload, version) := DecodeText(text); EncodeText(prefix', payload, version) != text
  {
    hide DecodeSymbols, EncodeSymbols, GoodPrefix, DroppedBits, ToBytes, ToSymbols;
    var symbols: seq<bv8> := [0, 1];
    var text := EncodeSymbols(prefix, symbols);
    EncodedCharacters(prefix, symbols);
    SymbolsReadBack(prefix, symbols);
    PanicsExactlyWithoutVersion(text);
    DropsOne();
    EncodeInvertsDecodeExactlyWhenCanonical(text);
  }

  lemma SymbolsFit(symbols: seq<bv8>)
    requires AreSymbols(symbols)
    ensures AllFit(symbols, 5)
  {
    forall i | 0 <= i < |symbols|
      ensures Fits(symbols[i], 5)
    {
      FitsFive(symbols[i]);
    }
  }

  /**
   The decoder reads past the end exactly on strings that pass every test of the internal
   decoder and carry fewer than two data symbols; every good prefix has such a string.
   */
  lemma PanicsExactlyWithoutVersion(encoded: string)
    ensures DecodeText(encoded).IndexPanic? <==>
            DecodeSymbols(encoded).Ok? && |DecodeSymbols(encoded).value.symbols| < 2
  {
    hide DecodeSymbols, Flatten;
    if DecodeSymbols(encoded).Ok? {
      FlattenLength(DecodeSymbols(encoded).value.symbols, 5);
    }
  }

  lemma EveryGoodPrefixCanPanic(prefix: string)
    requires GoodPrefix(prefix)
    ensures DecodeText(EncodeSymbols(prefix, [])).IndexPanic?
  {
    hide DecodeSymbols, EncodeSymbols, GoodPrefix;
    SymbolsReadBack(prefix, []);
    PanicsExactlyWithoutVersion(EncodeSymbols(prefix, []));
  }

  /** Upper-case strings decode like their lower-case form. */
  lemma CaseDoesNotMatter(encoded: string)
    requires Lower(encoded) == encoded
    ensures DecodeSymbols(Upper(encoded)) == DecodeSymbols(encoded)
  {
    hide Verifies, CheckSymbols, InCharset, SymbolOf, LastIndexByte;
    var upper := Upper(encoded);
    LowerFixed(encoded);
    assert Lower(upper) == encoded;
    assert Upper(upper) == upper;
    assert AllPrintable(upper) <==> AllPrintable(encoded) by {
      if AllPrintable(upper) {
        forall i | 0 <= i < |encoded|
          ensures IsPrintable(encoded[i])
        {
          assert IsPrintable(upper[i]);
        }
      }
    }
  }

  /**
   Burst detection in text: replacing up to eight adjacent characters of the data part of an
   accepted lower-case string, by anything but the separator and upper-case letters, always
   makes the decoder reject it.
   */
  lemma CorruptedTextIsRejected(good: string, bad: string, start: nat)
    requires Lower(good) == good && DecodeSymbols(good).Ok?
    requires Lower(bad) == bad && |bad| == |good| && bad != good
    requires |DecodeSymbols(good).value.prefix| < start < |good|
    requires forall i :: 0 <= i < |good| && !(start <= i < start + CHECKSUM_LENGTH) ==> bad[i] == good[i]
    requires forall i :: start <= i < |bad| ==> bad[i] != ':'
    ensures DecodeSymbols(bad).Err?
  {
    hide DecodeSymbols, Verifies, InCharset, SymbolOf, CharOf, Lower;
    if DecodeSymbols(bad).Ok? {
      var prefix := DecodeSymbols(good).value.prefix;
      var goodText, badText := good[|prefix| + 1..], bad[|prefix| + 1..];
      AcceptedShape(good, |prefix|);
      AcceptedShape(bad, |prefix|);
      assert bad[..|prefix|] == good[..|prefix|];
      assert good == prefix + ":" + goodText && bad == prefix + ":" + badText;
      FromBase32Inverts(goodText);
      FromBase32Inverts(badText);
      WindowCarriesOver(goodText, badText, start - (|prefix| + 1));
      BurstIsDetected(prefix, FromBase32(goodText), FromBase32(badText), start - (|prefix| + 1));
    }
  }

  lemma WindowCarriesOver(a: string, b: string, start: nat)
    requires IsBase32(a) && IsBase32(b) && |a| == |b|
    requires forall i :: 0 <= i < |a| && !(start <= i < start + CHECKSUM_LENGTH) ==> a[i] == b[i]
    ensures forall i :: 0 <= i < |a| && !(start <= i < start + CHECKSUM_LENGTH) ==> FromBase32(a)[i] == FromBase32(b)[i]
  {
  }

  /** An accepted lower-case string, taken apart at its last separator. */
  lemma AcceptedShape(encoded: string, n: nat)
    requires Lower(encoded) == encoded && DecodeSymbols(encoded).Ok?
    requires n < |encoded| && (n == |DecodeSymbols(encoded).value.prefix| ||
             (encoded[n] == ':' && forall i :: n < i < |encoded| ==> encoded[i] != ':'))
    ensures encoded[n] == ':' && encoded[..n] == DecodeSymbols(encoded).value.prefix
    ensures forall i :: n < i < |encoded| ==> encoded[i] != ':'
    ensures IsBase32(encoded[n + 1..]) && Verifies(encoded[..n], FromBase32(encoded[n + 1..]))
  {
    hide Verifies, CheckSymbols, InCharset, SymbolOf, LowerChar, UpperChar, IsPrintable;
    if encoded[n] == ':' && forall i :: n < i < |encoded| ==> encoded[i] != ':' {
      LastColon(encoded, n);
    }
  }

  lemma CasesAgree(encoded: string)
    ensures Lower(Lower(encoded)) == Lower(encoded) && Upper(Lower(encoded)) == Upper(encoded)
  {
  }

  lemma MixedCaseIsRejected(encoded: string)
    requires encoded != Lower(encoded) && encoded != Upper(encoded)
    ensures DecodeSymbols(encoded).Err?
  {
    hide Lower, Upper, DecodeData, LastIndexByte, AllPrintable;
  }

  lemma UpperFixed(s: string)
    ensures Upper(s) == s <==> forall i :: 0 <= i < |s| ==> !('a' <= s[i] <= 'z')
  {
    if Upper(s) == s {
      forall i | 0 <= i < |s|
        ensures !('a' <= s[i] <= 'z')
      {
        assert Upper(s)[i] == s[i];
      }
    }
  }

  lemma DecodesInEitherCase(encoded: string, prefix: string, data: seq<bv8>)
    ensures DecodeSymbols(encoded) == Ok(Parts(prefix, data)) <==>
            && (encoded == Lower(encoded) || encoded == Upper(encoded))
            && GoodPrefix(prefix) && AreSymbols(data) && Lower(encoded) == EncodeSymbols(prefix, data)
  {
    hide DecodeSymbols, EncodeSymbols, GoodPrefix, Lower, Upper;
    CasesAgree(encoded);
    var lower := Lower(encoded);
    if encoded != lower && encoded != Upper(encoded) {
      MixedCaseIsRejected(encoded);
    } else {
      DecoderInvertsEncoder(lower, prefix, data);
      if encoded != lower {
        CaseDoesNotMatter(lower);
      }
    }
  }

  /**
   The decoder on every string: it accepts a string with some prefix and symbols if and only if
   the string has no upper-case or no lower-case letters, its lower-case form is what the encoder
   prints for them, and the prefix is not empty and made of the characters 33 to 126 without
   upper-case letters.
   */
  lemma DecodesExactly(encoded: string, prefix: string, data: seq<bv8>)
    ensures DecodeSymbols(encoded) == Ok(Parts(prefix, data)) <==>
            && ((forall i :: 0 <= i < |encoded| ==> !('A' <= encoded[i] <= 'Z')) ||
                (forall i :: 0 <= i < |encoded| ==> !('a' <= encoded[i] <= 'z')))
            && |prefix| >= 1 && (forall i :: 0 <= i < |prefix| ==> 33 <= prefix[i] as int <= 126 && !('A' <= prefix[i] <= 'Z'))
            && (forall i :: 0 <= i < |data| ==> data[i] < 32)
            && Lower(encoded) == EncodeSymbols(prefix, data)
  {
    hide DecodeSymbols, EncodeSymbols, Lower, Upper;
    LowerFixed(encoded);
    UpperFixed(encoded);
    DecodesInEitherCase(encoded, prefix, data);
  }

  lemma Base32Appends(a: seq<bv8>, b: seq<bv8>)
    requires AreSymbols(a) && AreSymbols(b)
    ensures Base32(a + b) == Base32(a) + Base32(b)
  {
    hide CharOf;
  }

  /** The part after the separator, with the expected check symbols in place of the found ones. */
  lemma ExpectedDataIsPrinted(prefix: string, data: string)
    requires |data| >= CHECKSUM_LENGTH && DecodeData(prefix, data).Err? && DecodeData(prefix, data).error.ChecksumFailed?
    ensures var error, n := DecodeData(prefix, data).error, |data| - CHECKSUM_LENGTH;
            && IsBase32(data) && error.got == data[n..] && AreSymbols(FromBase32(data)[..n])
            && EncodeSymbols(prefix, FromBase32(data)[..n]) == prefix + ":" + (data[..n] + error.expected)
            && error.expected != error.got
  {
    hide CheckSymbols, Verifies, InCharset, SymbolOf, CharOf;
    var n, decoded := |data| - CHECKSUM_LENGTH, FromBase32(data);
    FromBase32Inverts(data);
    var symbols, check := decoded[..n], CheckSymbols(prefix, decoded[..n]);
    assert decoded == symbols + decoded[n..];
    Base32Appends(symbols, decoded[n..]);
    Base32Appends(symbols, check);
    assert data[..n] == Base32(symbols) && data[n..] == Base32(decoded[n..]);
    ChecksumIsUnique(prefix, symbols, decoded[n..]);
    if Base32(check) == data[n..] {
      Base32Inverts(check);
      Base32Inverts(decoded[n..]);
    }
  }

  /** The error of a failed checksum names what would have been accepted in place of the last eight characters. */
  lemma ExpectedSymbolsAreAccepted(encoded: string)
    requires DecodeSymbols(encoded).Err? && DecodeSymbols(encoded).error.ChecksumFailed?
    ensures var error, lower := DecodeSymbols(encoded).error, Lower(encoded);
            && CHECKSUM_LENGTH <= |lower| && error.got == lower[|lower| - CHECKSUM_LENGTH..] && error.expected != error.got
            && DecodeSymbols(lower[..|lower| - CHECKSUM_LENGTH] + error.expected).Ok?
  {
    hide DecodeData, LowerChar, UpperChar, IsPrintable, LastIndexByte, EncodeSymbols, IsBase32, FromBase32;
    var lower := Lower(encoded);
    var n, m := LastIndexByte(lower, ':', |lower|), |lower| - CHECKSUM_LENGTH;
    var prefix, data := lower[..n], lower[n + 1..];
    ExpectedDataIsPrinted(prefix, data);
    LoweredPrefixIsGood(encoded, n);
    var error := DecodeData(prefix, data).error;
    assert lower[..m] + error.expected == prefix + ":" + (data[..|data| - CHECKSUM_LENGTH] + error.expected);
    SymbolsReadBack(prefix, FromBase32(data)[..|data| - CHECKSUM_LENGTH]);
  }

  lemma LoweredPrefixIsGood(encoded: string, n: nat)
    requires AllPrintable(encoded) && 1 <= n <= |encoded|
    ensures GoodPrefix(Lower(encoded)[..n])
  {
    hide LowerChar, IsPrintable;
    var prefix := Lower(encoded)[..n];
    forall i | 0 <= i < |prefix|
      ensures IsPrintable(prefix[i]) && !('A' <= prefix[i] <= 'Z')
    {
      LowerCharIsGood(encoded[i]);
    }
  }

  /**
   Another prefix in front of an encoded text: changing characters of the prefix within a window
   of eight is noticed if and only if the low five bits of some character change.
   */
  lemma RenamedPrefixIsNoticedExactly(p: string, q: string, data: seq<bv8>, start: nat)
    requires GoodPrefix(p) && GoodPrefix(q) && |p| == |q| && AreSymbols(data)
    requires forall i :: 0 <= i < |p| && !(start <= i < start + CHECKSUM_LENGTH) ==> p[i] == q[i]
    ensures |p| <= |EncodeSymbols(p, data)|
    ensures DecodeSymbols(q + EncodeSymbols(p, data)[|p|..]).Err? <==> exists i :: 0 <= i < |p| && p[i] as int % 32 != q[i] as int % 32
  {
    hide Verifies, GoodPrefix, DecodeSymbols, CheckSymbols, Base32;
    var all := data + CheckSymbols(p, data);
    var text := Base32(all);
    assert EncodeSymbols(p, data) == p + ":" + text;
    assert q + EncodeSymbols(p, data)[|p|..] == q + ":" + text;
    ChecksumIsUnique(p, data, CheckSymbols(p, data));
    PrintedWithPrefix(q, all);
    PrefixIsProtected(p, q, all, start);
  }

  /** A good prefix, the separator and printed symbols decode exactly when they verify. */
  lemma PrintedWithPrefix(prefix: string, all: seq<bv8>)
    requires GoodPrefix(prefix) && AreSymbols(all) && |all| >= CHECKSUM_LENGTH
    ensures DecodeSymbols(prefix + ":" + Base32(all)).Ok? <==> Verifies(prefix, all)
  {
    hide Verifies, CheckSymbols, LowerChar, UpperChar, IsPrintable, InCharset, SymbolOf, CharOf, LastIndexByte;
    var text := Base32(all);
    var encoded := prefix + ":" + text;
    PrintedCharacters(prefix, all);
    LastColon(encoded, |prefix|);
    assert encoded[..|prefix|] == prefix && encoded[|prefix| + 1..] == text;
    Base32Inverts(all);
  }

  lemma PrintedCharacters(prefix: string, all: seq<bv8>)
    requires GoodPrefix(prefix) && AreSymbols(all)
    ensures var encoded := prefix + ":" + Base32(all);
            && AllPrintable(encoded) && Lower(encoded) == encoded
            && forall i :: |prefix| < i < |encoded| ==> encoded[i] != ':'
  {
    hide LowerChar, UpperChar;
    var text := Base32(all);
    forall i | 0 <= i < |text|
      ensures IsPrintable(text[i]) && text[i] != ':' && !('A' <= text[i] <= 'Z')
    {
      CharsetIsPlain(all[i] as int);
    }
    LowerFixed(prefix + ":" + text);
  }

  // ---------------------------------------------------------------------------------------
  // Which error
  // ---------------------------------------------------------------------------------------

  /** All characters lie between 33 and 126. */
  predicate IsPlain(s: string) {
    forall i :: 0 <= i < |s| ==> 33 <= s[i] as int <= 126
  }

  /** There are letters of both cases. */
  predicate IsMixed(s: string) {
    (exists i :: 0 <= i < |s| && 'A' <= s[i] <= 'Z') && (exists i :: 0 <= i < |s| && 'a' <= s[i] <= 'z')
  }

  /** The last separator stands at `i`, behind a prefix and in front of at least eight characters. */
  predicate SeparatesAt(s: string, i: int) {
    1 <= i && i + 9 <= |s| && s[i] == ':' && forall j :: i < j < |s| ==> s[j] != ':'
  }

  lemma MixedMeansNeither(s: string)
    ensures IsMixed(s) <==> s != Lower(s) && s != Upper(s)
  {
    hide Lower, Upper;
    LowerFixed(s);
    UpperFixed(s);
  }

  lemma SeparatorIsFound(s: string)
    ensures var n := LastIndexByte(Lower(s), ':', |s|);
            && (n >= 1 && n + 9 <= |s| ==> SeparatesAt(s, n))
            && (forall i :: SeparatesAt(s, i) ==> i == n)
  {
    hide LastIndexByte;
    var lower := Lower(s);
    var n := LastIndexByte(lower, ':', |s|);
    forall i | 0 <= i < |s|
      ensures lower[i] == ':' <==> s[i] == ':'
    {
    }
    forall i | SeparatesAt(s, i)
      ensures i == n
    {
      assert lower[i] == ':';
    }
  }

  lemma CharsetHolds(c: char)
    ensures InCharset(c) <==> c in CHARSET
  {
    hide IndexByte;
    if c in CHARSET {
      var i :| 0 <= i < |CHARSET| && CHARSET[i] == c;
    }
  }

  /**
   The error names the first test that fails: length, characters, case, separator, charset of the
   data, checksum.
   */
  lemma RejectsExactlySo(encoded: string)
    ensures DecodeSymbols(encoded) == Err(InvalidLength) <==> |encoded| < 10
    ensures DecodeSymbols(encoded) == Err(InvalidCharacter) <==> |encoded| >= 10 && !IsPlain(encoded)
    ensures DecodeSymbols(encoded) == Err(MixedCase) <==> |encoded| >= 10 && IsPlain(encoded) && IsMixed(encoded)
    ensures DecodeSymbols(encoded) == Err(InvalidSeparator) <==>
            |encoded| >= 10 && IsPlain(encoded) && !IsMixed(encoded) && forall i :: !SeparatesAt(encoded, i)
    ensures DecodeSymbols(encoded) == Err(NotInCharset) <==>
            |encoded| >= 10 && IsPlain(encoded) && !IsMixed(encoded) &&
            exists i, j :: SeparatesAt(encoded, i) && i < j < |encoded| && Lower(encoded)[j] !in CHARSET
  {
    hide DecodeSymbols, DecodeData, Lower, LastIndexByte, IsPlain, IsMixed, SeparatesAt, IsBase32;
    FirstTests(encoded);
    SeparatorIsFound(encoded);
    var lower := Lower(encoded);
    var n := LastIndexByte(lower, ':', |lower|);
    if 1 <= n && n + 9 <= |lower| {
      DataErrors(lower[..n], lower[n + 1..]);
      DataInCharset(lower, n);
    } else if i :| SeparatesAt(encoded, i) {
      SeparatorIsInside(encoded, i);
    }
  }

  lemma SeparatorIsInside(s: string, i: int)
    requires SeparatesAt(s, i)
    ensures 1 <= i && i + 9 <= |s|
  {
  }

  /** The tests in front of the separator, and what is left when they pass. */
  lemma FirstTests(encoded: string)
    ensures var lower := Lower(encoded);
            var n := LastIndexByte(lower, ':', |lower|);
            DecodeSymbols(encoded) ==
            if |encoded| < 10 then Err(InvalidLength)
            else if !IsPlain(encoded) then Err(InvalidCharacter)
            else if IsMixed(encoded) then Err(MixedCase)
            else if n < 1 || n + 9 > |lower| then Err(InvalidSeparator)
            else DecodeData(lower[..n], lower[n + 1..])
  {
    hide DecodeData, Lower, Upper, LastIndexByte, IsMixed;
    MixedMeansNeither(encoded);
  }

  lemma DataErrors(prefix: string, data: string)
    requires |data| >= CHECKSUM_LENGTH
    ensures DecodeData(prefix, data) == Err(NotInCharset) <==> !IsBase32(data)
    ensures DecodeData(prefix, data).Ok? || DecodeData(prefix, data) == Err(NotInCharset) || DecodeData(prefix, data).error.ChecksumFailed?
  {
    hide IsBase32, FromBase32, Verifies, CheckSymbols, Base32;
  }

  lemma DataInCharset(lower: string, n: nat)
    requires n < |lower|
    ensures IsBase32(lower[n + 1..]) <==> forall j :: n < j < |lower| ==> lower[j] in CHARSET
  {
    hide InCharset;
    var data := lower[n + 1..];
    forall j | n < j < |lower|
      ensures InCharset(data[j - n - 1]) <==> lower[j] in CHARSET
    {
      CharsetHolds(lower[j]);
    }
    if forall j :: n < j < |lower| ==> lower[j] in CHARSET {
      forall i | 0 <= i < |data|
        ensures InCharset(data[i])
      {
        assert lower[i + n + 1] in CHARSET;
      }
    }
    if IsBase32(data) {
      forall j | n < j < |lower|
        ensures lower[j] in CHARSET
      {
        assert InCharset(data[j - n - 1]);
      }
    }
  }

  // ---------------------------------------------------------------------------------------
  // One worked example
  // ---------------------------------------------------------------------------------------

  /** The bytes 8 and 32 as five-bit symbols. */
  lemma ExampleSymbols()
    ensures ToSymbols([8, 32]) == [1, 0, 16, 0]
  {
    hide ToSymbols, Regroup;
    var data: seq<bv8>, symbols: seq<bv8> := [8, 32], [1, 0, 16, 0];
    ExampleBytes();
    ExampleGroups();
    SymbolStream(data);
    SymbolsOfBytes(data);
    SymbolsFit(symbols);
    SymbolsFit(ToSymbols(data));
    var stream := Flatten(symbols, 5);
    assert Flatten(ToSymbols(data), 5) == stream && stream + [] == stream;
    RegroupOfFlatten(symbols, [], 5);
    RegroupOfFlatten(ToSymbols(data), [], 5);
  }

  lemma ExampleBits()
    ensures LowBits(8, 8) == [false, false, false, false, true, false, false, false]
    ensures LowBits(32, 8) == [false, false, true, false, false, false, false, false]
    ensures LowBits(1, 5) == [false, false, false, false, true]
    ensures LowBits(16, 5) == [true, false, false, false, false]
    ensures LowBits(0, 5) == [false, false, false, false, false]
  {
  }

  lemma FlattenCons(x: bv8, rest: seq<bv8>, w: nat)
    requires w <= 8
    ensures Flatten([x] + rest, w) == LowBits(x, w) + Flatten(rest, w)
  {
    assert ([x] + rest)[1..] == rest;
  }

  lemma ExampleBytes()
    ensures Flatten([8, 32], 8) + ZeroBits(Padding(16, 5)) ==
            [false, false, false, false, true, false, false, false, false, false,
             true, false, false, false, false, false, false, false, false, false]
    ensures |Flatten([8, 32], 8)| == 16
  {
    hide LowBits, Flatten;
    ExampleBits();
    var last: seq<bv8> := [32];
    FlattenCons(8, last, 8);
    FlattenOne(32, 8);
    assert [8] + last == [8, 32];
    assert ZeroBits(Padding(16, 5)) == [false, false, false, false];
  }

  lemma ExampleGroups()
    ensures Flatten([1, 0, 16, 0], 5) ==
            [false, false, false, false, true, false, false, false, false, false,
             true, false, false, false, false, false, false, false, false, false]
  {
    hide LowBits, Flatten;
    ExampleBits();
    var one: seq<bv8> := [0];
    var two := [16] + one;
    var three := [0] + two;
    FlattenCons(1, three, 5);
    FlattenCons(0, two, 5);
    FlattenCons(16, one, 5);
    FlattenOne(0, 5);
    assert [1] + three == [1, 0, 16, 0];
  }

  lemma ExampleCharacters()
    ensures CharOf(0) == 'q' && CharOf(1) == 'p' && CharOf(2) == 'z' && CharOf(9) == 'f' && CharOf(12) == 'v'
    ensures CharOf(13) == 'd' && CharOf(16) == 's' && CharOf(18) == 'j' && CharOf(21) == '4' && CharOf(26) == '6'
  {
  }

  /** The text of prefix "b", version 8 and the payload of one space. */
  lemma ExampleText()
    ensures EncodeText("b", [32], 8) == "b:pqsqzsjd64fv"
  {
    hide ToSymbols, CheckSymbols, CharOf;
    ExampleSymbols();
    ExampleChecksum();
    ExampleCharacters();
    var all: seq<bv8> := [1, 0, 16, 0, 2, 16, 18, 13, 26, 21, 9, 12];
    var version: seq<bv8> := [8];
    assert version + [32] == [8, 32];
    assert [1, 0, 16, 0] + CheckSymbols("b", [1, 0, 16, 0]) == all;
    assert Base32(all) == "pqsqzsjd64fv";
  }
}
