/**
 * The literal parsers of the generator: hexadecimal colours, pixel numbers
 * and the pseudo-array argument naming the tokens file
 * (Sources/Executables/TokenCodegenGenerator/parsers.swift).
 */
module Literals {

  import opened Wrappers
  import opened Strings
  import opened Decimal

  /** Normalised colour components; each parsed channel is a byte over 255. */
  datatype RGBA = RGBA(red: real, green: real, blue: real, alpha: real)

  datatype HexDecodingError = InvalidInputCharacters | InvalidInputLength

  datatype NumberDecodingError = InvalidInput

  datatype ParseInputError = WrongArguments

  /** The file name the single path argument must mention. */
  const TokensFileName: string := "tokens.json"

  predicate InUnitRange(c: RGBA)
  {
    0.0 <= c.red <= 1.0 && 0.0 <= c.green <= 1.0 && 0.0 <= c.blue <= 1.0 && 0.0 <= c.alpha <= 1.0
  }

  // ---------------------------------------------------------------------
  // Hexadecimal colours

  function HexDigitValue(c: char): (d: nat)
    requires IsHexDigit(c)
    ensures d < 16
  {
    if '0' <= c <= '9' then c as int - '0' as int
    else if 'a' <= c <= 'f' then c as int - 'a' as int + 10
    else c as int - 'A' as int + 10
  }

  /** What `Scanner.scanHexInt64` reads from a run of hex digits, most significant first. */
  function HexValue(s: string): nat
    requires AllHexDigits(s)
    decreases |s|
  {
    if s == [] then 0 else 16 * HexValue(s[..|s| - 1]) + HexDigitValue(s[|s| - 1])
  }

  /** `v >> (8 * bytes)`. */
  function ShiftBytes(v: nat, bytes: nat): nat
  {
    if bytes == 0 then v else ShiftBytes(v / 256, bytes - 1)
  }

  /** `(v >> (8 * bytes)) & 0xff`, normalised by 255. */
  function Channel(v: nat, bytes: nat): (c: real)
    ensures 0.0 <= c <= 1.0
  {
    (ShiftBytes(v, bytes) % 256) as real / 255.0
  }

  /** The text `parseHex` validates: trimmed of white space and newlines, every `#` removed. */
  function HexDigitsOf(s: string): string
  {
    RemoveAll(Trim(s, WhitespacesAndNewlines), "#")
  }

  /**
   * `parseHex`: the character check comes first, then the length must be 6
   * (alpha is 1) or 8 (the last byte is alpha).
   */
  function ParseHex(s: string): (r: Result<RGBA, HexDecodingError>)
    ensures r == Failure(InvalidInputCharacters) <==> !AllHexDigits(HexDigitsOf(s))
    ensures r == Failure(InvalidInputLength) <==>
      AllHexDigits(HexDigitsOf(s)) && |HexDigitsOf(s)| != 6 && |HexDigitsOf(s)| != 8
    ensures r.Success? ==> InUnitRange(r.value)
  {
    var digits := HexDigitsOf(s);
    if !AllHexDigits(digits) then Failure(InvalidInputCharacters)
    else if |digits| != 6 && |digits| != 8 then Failure(InvalidInputLength)
    else
      var v := HexValue(digits);
      var hasAlpha := |digits| == 8;
      Success(RGBA(
        Channel(v, if hasAlpha then 3 else 2),
        Channel(v, if hasAlpha then 2 else 1),
        Channel(v, if hasAlpha then 1 else 0),
        if hasAlpha then Channel(v, 0) else 1.0))
  }

  /** The byte spelled by the two hex digits at pair index `k`. */
  function PairValue(d: string, k: nat): (b: nat)
    requires AllHexDigits(d) && 2 * k + 2 <= |d|
    ensures b < 256
  {
    16 * HexDigitValue(d[2 * k]) + HexDigitValue(d[2 * k + 1])
  }

  lemma AllHexDigitsAppend(a: string, b: string)
    requires AllHexDigits(a) && AllHexDigits(b)
    ensures AllHexDigits(a + b)
  {
    forall i | 0 <= i < |a + b| ensures IsHexDigit((a + b)[i]) {
      if i < |a| {
        assert (a + b)[i] == a[i];
      } else {
        assert (a + b)[i] == b[i - |a|];
      }
    }
  }

  lemma {:induction false} HexValueAppend(a: string, b: string)
    requires AllHexDigits(a) && AllHexDigits(b)
    ensures AllHexDigits(a + b)
    ensures HexValue(a + b) == HexValue(a) * Pow16(|b|) + HexValue(b)
    decreases |b|
  {
    AllHexDigitsAppend(a, b);
    if b == [] {
      assert a + b == a;
    } else {
      var b' := b[..|b| - 1];
      var l := HexDigitValue(b[|b| - 1]);
      assert AllHexDigits(b');
      HexValueAppend(a, b');
      var x, p, y := HexValue(a), Pow16(|b'|), HexValue(b');
      assert HexValue(a + b) == 16 * HexValue(a + b') + l by {
        var ab := a + b;
        assert ab[..|ab| - 1] == a + b';
        assert ab[|ab| - 1] == b[|b| - 1];
      }
      MulShift(x, p, y, l);
    }
  }

  lemma MulShift(x: nat, p: nat, y: nat, l: nat)
    ensures 16 * (x * p + y) + l == x * (16 * p) + (16 * y + l)
  {
  }

  function Pow16(n: nat): nat
  {
    if n == 0 then 1 else 16 * Pow16(n - 1)
  }

  /** Splitting digits into bytes: the scanned value is the bytes in base 256. */
  lemma HexValueOfPairs(d: string, n: nat)
    requires AllHexDigits(d) && |d| == 2 * n
    ensures n > 0 ==> HexValue(d) == 256 * HexValue(d[..2 * n - 2]) + PairValue(d, n - 1)
  {
    if n > 0 {
      var front, last := d[..2 * n - 2], d[2 * n - 2..];
      assert d == front + last;
      HexValueAppend(front, last);
      assert Pow16(2) == 256;
      assert HexValue(last) == PairValue(d, n - 1) by {
        assert last[..1][..0] == [];
        assert HexValue(last[..1]) == HexDigitValue(d[2 * n - 2]);
      }
    }
  }

  lemma ShiftOfDigitPrefix(q: nat, b: nat, k: nat)
    requires b < 256
    ensures ShiftBytes(256 * q + b, k + 1) == ShiftBytes(q, k)
    ensures (256 * q + b) % 256 == b
  {
    assert (256 * q + b) / 256 == q;
  }

  lemma BytesOfThree(b0: nat, b1: nat, b2: nat)
    requires b0 < 256 && b1 < 256 && b2 < 256
    ensures var v := 256 * (256 * b0 + b1) + b2;
      ShiftBytes(v, 2) % 256 == b0 && ShiftBytes(v, 1) % 256 == b1 && ShiftBytes(v, 0) % 256 == b2
  {
    ShiftOfDigitPrefix(256 * b0 + b1, b2, 0);
    ShiftOfDigitPrefix(256 * b0 + b1, b2, 1);
    ShiftOfDigitPrefix(b0, b1, 0);
    ShiftOfDigitPrefix(0, b0, 0);
  }

  lemma BytesOfFour(b0: nat, b1: nat, b2: nat, b3: nat)
    requires b0 < 256 && b1 < 256 && b2 < 256 && b3 < 256
    ensures var v := 256 * (256 * (256 * b0 + b1) + b2) + b3;
      ShiftBytes(v, 3) % 256 == b0 && ShiftBytes(v, 2) % 256 == b1 &&
      ShiftBytes(v, 1) % 256 == b2 && ShiftBytes(v, 0) % 256 == b3
  {
    var hi := 256 * (256 * b0 + b1) + b2;
    ShiftOfDigitPrefix(hi, b3, 0);
    ShiftOfDigitPrefix(hi, b3, 1);
    ShiftOfDigitPrefix(hi, b3, 2);
    BytesOfThree(b0, b1, b2);
  }

  lemma SixDigitValue(d: string)
    requires AllHexDigits(d) && |d| == 6
    ensures HexValue(d) == 256 * (256 * PairValue(d, 0) + PairValue(d, 1)) + PairValue(d, 2)
  {
    HexValueOfPairs(d, 3);
    HexValueOfPairs(d[..4], 2);
    HexValueOfPairs(d[..2], 1);
    assert d[..4][..2] == d[..2] && d[..2][..0] == [];
  }

  lemma EightDigitValue(d: string)
    requires AllHexDigits(d) && |d| == 8
    ensures HexValue(d) ==
      256 * (256 * (256 * PairValue(d, 0) + PairValue(d, 1)) + PairValue(d, 2)) + PairValue(d, 3)
  {
    HexValueOfPairs(d, 4);
    SixDigitValue(d[..6]);
    assert PairValue(d[..6], 0) == PairValue(d, 0);
    assert PairValue(d[..6], 1) == PairValue(d, 1);
    assert PairValue(d[..6], 2) == PairValue(d, 2);
  }

  /** Six valid digits: the three bytes over 255, and alpha exactly 1. */
  lemma ParseHexSixDigits(s: string)
    requires AllHexDigits(HexDigitsOf(s)) && |HexDigitsOf(s)| == 6
    ensures var d := HexDigitsOf(s);
      ParseHex(s) == Success(RGBA(
        PairValue(d, 0) as real / 255.0,
        PairValue(d, 1) as real / 255.0,
        PairValue(d, 2) as real / 255.0,
        1.0))
  {
    SixDigitChannels(HexDigitsOf(s));
  }

  lemma SixDigitChannels(d: string)
    requires AllHexDigits(d) && |d| == 6
    ensures Channel(HexValue(d), 2) == PairValue(d, 0) as real / 255.0
    ensures Channel(HexValue(d), 1) == PairValue(d, 1) as real / 255.0
    ensures Channel(HexValue(d), 0) == PairValue(d, 2) as real / 255.0
  {
    SixDigitValue(d);
    BytesOfThree(PairValue(d, 0), PairValue(d, 1), PairValue(d, 2));
  }

  /** Eight valid digits: the first three bytes over 255, the fourth over 255 as alpha. */
  lemma ParseHexEightDigits(s: string)
    requires AllHexDigits(HexDigitsOf(s)) && |HexDigitsOf(s)| == 8
    ensures var d := HexDigitsOf(s);
      ParseHex(s) == Success(RGBA(
        PairValue(d, 0) as real / 255.0,
        PairValue(d, 1) as real / 255.0,
        PairValue(d, 2) as real / 255.0,
        PairValue(d, 3) as real / 255.0))
  {
    EightDigitChannels(HexDigitsOf(s));
  }

  lemma EightDigitChannels(d: string)
    requires AllHexDigits(d) && |d| == 8
    ensures Channel(HexValue(d), 3) == PairValue(d, 0) as real / 255.0
    ensures Channel(HexValue(d), 2) == PairValue(d, 1) as real / 255.0
    ensures Channel(HexValue(d), 1) == PairValue(d, 2) as real / 255.0
    ensures Channel(HexValue(d), 0) == PairValue(d, 3) as real / 255.0
  {
    EightDigitValue(d);
    BytesOfFour(PairValue(d, 0), PairValue(d, 1), PairValue(d, 2), PairValue(d, 3));
  }

  /** A lower-case hex digit, as `%x` prints it. */
  function HexChar(d: nat): (c: char)
    requires d < 16
    ensures IsHexDigit(c) && HexDigitValue(c) == d
    ensures c != '#' && c !in WhitespacesAndNewlines
  {
    if d < 10 then ('0' as int + d) as char else ('a' as int + d - 10) as char
  }

  /** A byte as two lower-case hex digits, as `String(format: "%02x", b)` prints it. */
  function HexByte(b: nat): (s: string)
    requires b < 256
    ensures |s| == 2 && AllHexDigits(s) && '#' !in s
    ensures s[0] !in WhitespacesAndNewlines && s[1] !in WhitespacesAndNewlines
  {
    [HexChar(b / 16), HexChar(b % 16)]
  }

  /** Text `#` followed only by hex digits keeps exactly those digits. */
  lemma HexDigitsOfHashed(digits: string)
    requires digits != [] && AllHexDigits(digits)
    ensures HexDigitsOf("#" + digits) == digits
  {
    var s := "#" + digits;
    assert s[|s| - 1] == digits[|digits| - 1];
    TrimUntrimmed(s, WhitespacesAndNewlines);
    assert s[..1] == "#" && s[1..] == digits;
    NoHashInHexDigits(digits);
    ReplaceAllNoMatch(digits, "#", "");
    assert RemoveAll(s, "#") == "" + RemoveAll(digits, "#");
  }

  lemma {:induction false} NoHashInHexDigits(digits: string)
    requires AllHexDigits(digits)
    ensures !Contains(digits, "#")
    decreases |digits|
  {
    if digits != [] {
      assert digits[0] != '#';
      NoHashInHexDigits(digits[1..]);
    }
  }

  /** Printing three bytes as `#rrggbb` and parsing them back gives each byte over 255 and alpha 1. */
  lemma ParseHexRoundTrip(r: nat, g: nat, b: nat, printed: string)
    requires r < 256 && g < 256 && b < 256
    requires printed == HexByte(r) + HexByte(g) + HexByte(b)
    ensures ParseHex("#" + printed) == Success(RGBA(r as real / 255.0, g as real / 255.0, b as real / 255.0, 1.0))
  {
    ThreeBytesPrinted(r, g, b);
    ParseHexSixDigits("#" + printed);
  }

  /** Printing four bytes as `#rrggbbaa` and parsing them back gives each byte over 255. */
  lemma ParseHexRoundTripWithAlpha(r: nat, g: nat, b: nat, a: nat, printed: string)
    requires r < 256 && g < 256 && b < 256 && a < 256
    requires printed == HexByte(r) + HexByte(g) + HexByte(b) + HexByte(a)
    ensures ParseHex("#" + printed) == Success(RGBA(r as real / 255.0, g as real / 255.0, b as real / 255.0, a as real / 255.0))
  {
    FourBytesPrinted(r, g, b, a);
    ParseHexEightDigits("#" + printed);
  }

  lemma ThreeBytesPrinted(r: nat, g: nat, b: nat)
    requires r < 256 && g < 256 && b < 256
    ensures var d := HexByte(r) + HexByte(g) + HexByte(b);
      AllHexDigits(d) && HexDigitsOf("#" + d) == d && |d| == 6 &&
      PairValue(d, 0) == r && PairValue(d, 1) == g && PairValue(d, 2) == b
  {
    var d := HexByte(r) + HexByte(g) + HexByte(b);
    var bytes := [r, g, b];
    assert d[0..2] == HexByte(r) && d[2..4] == HexByte(g) && d[4..6] == HexByte(b);
    assert forall i :: 0 <= i < |bytes| ==> d[2 * i..2 * i + 2] == HexByte(bytes[i]);
    PrintedBytes(d, bytes);
    assert PairValue(d, 0) == bytes[0] && PairValue(d, 1) == bytes[1] && PairValue(d, 2) == bytes[2];
  }

  lemma FourBytesPrinted(r: nat, g: nat, b: nat, a: nat)
    requires r < 256 && g < 256 && b < 256 && a < 256
    ensures var d := HexByte(r) + HexByte(g) + HexByte(b) + HexByte(a);
      AllHexDigits(d) && HexDigitsOf("#" + d) == d && |d| == 8 &&
      PairValue(d, 0) == r && PairValue(d, 1) == g && PairValue(d, 2) == b && PairValue(d, 3) == a
  {
    var d := HexByte(r) + HexByte(g) + HexByte(b) + HexByte(a);
    var bytes := [r, g, b, a];
    assert d[0..2] == HexByte(r) && d[2..4] == HexByte(g) && d[4..6] == HexByte(b) && d[6..8] == HexByte(a);
    assert forall i :: 0 <= i < |bytes| ==> d[2 * i..2 * i + 2] == HexByte(bytes[i]);
    PrintedBytes(d, bytes);
    assert PairValue(d, 0) == bytes[0] && PairValue(d, 1) == bytes[1] && PairValue(d, 2) == bytes[2] && PairValue(d, 3) == bytes[3];
  }

  /** The digits of bytes printed one after another, behind a `#`, read back as those bytes. */
  lemma PrintedBytes(d: string, bytes: seq<nat>)
    requires forall i :: 0 <= i < |bytes| ==> bytes[i] < 256
    requires |d| == 2 * |bytes|
    requires forall i :: 0 <= i < |bytes| ==> d[2 * i..2 * i + 2] == HexByte(bytes[i])
    ensures AllHexDigits(d) && HexDigitsOf("#" + d) == d
    ensures forall i :: 0 <= i < |bytes| ==> PairValue(d, i) == bytes[i]
  {
    forall j | 0 <= j < |d| ensures IsHexDigit(d[j]) {
      var i := j / 2;
      assert 0 <= i < |bytes|;
      assert d[2 * i..2 * i + 2] == HexByte(bytes[i]);
      assert d[2 * i..2 * i + 2][j - 2 * i] == d[j];
    }
    if d != [] {
      HexDigitsOfHashed(d);
    } else {
      assert "#" + d == "#";
    }
    forall i | 0 <= i < |bytes| ensures PairValue(d, i) == bytes[i] {
      PairAt(d, i, bytes[i]);
    }
  }

  /** The pair at index `k` of a string whose `k`-th two characters print byte `x` is `x`. */
  lemma PairAt(d: string, k: nat, x: nat)
    requires x < 256 && AllHexDigits(d) && 2 * k + 2 <= |d|
    requires d[2 * k..2 * k + 2] == HexByte(x)
    ensures PairValue(d, k) == x
  {
    assert d[2 * k] == HexByte(x)[0] && d[2 * k + 1] == HexByte(x)[1];
  }

  // ---------------------------------------------------------------------
  // Pixel numbers

  /** `parseNumber`: every `px` is deleted and what remains must be a number. */
  function ParseNumber(s: string): (r: Result<real, NumberDecodingError>)
    ensures r.Success? <==> ParseDecimal(RemoveAll(s, "px")).Some?
    ensures r.Success? ==> r.value == ParseDecimal(RemoveAll(s, "px")).value
  {
    match ParseDecimal(RemoveAll(s, "px"))
    case None => Failure(InvalidInput)
    case Some(v) => Success(v)
  }

  lemma {:induction false} RemoveTrailingPx(s: string)
    requires !Contains(s, "px")
    ensures RemoveAll(s + "px", "px") == s
    decreases |s|
  {
    var t := s + "px";
    if s == [] {
      assert t == "px" && t[..2] == "px" && t[2..] == [];
      assert ReplaceAll(t, "px", "") == "" + ReplaceAll([], "px", "");
    } else {
      assert t[..2] != "px" by {
        if |s| == 1 {
          assert t[1] == 'p';
        } else {
          assert t[..2] == s[..2];
          assert !("px" <= s);
        }
      }
      assert t[1..] == s[1..] + "px";
      RemoveTrailingPx(s[1..]);
    }
  }

  /** A trailing `px` unit changes nothing: `parseNumber(s + "px") == parseNumber(s)`. */
  lemma ParseNumberIgnoresUnit(s: string)
    requires !Contains(s, "px")
    ensures ParseNumber(s + "px") == ParseNumber(s)
  {
    RemoveTrailingPx(s);
    ReplaceAllNoMatch(s, "px", "");
  }

  /** Whole numbers of pixels read back exactly, with or without the unit. */
  lemma ParseNumberOfNat(n: nat)
    ensures ParseNumber(NatToString(n)) == Success(n as real)
    ensures ParseNumber(NatToString(n) + "px") == Success(n as real)
  {
    var s := NatToString(n);
    assert !Contains(s, "px") by {
      NoPxInDigits(s);
    }
    ParseNumberIgnoresUnit(s);
    ReplaceAllNoMatch(s, "px", "");
    ParseDecimalOfNat(n);
  }

  lemma {:induction false} NoPxInDigits(s: string)
    requires AllDigits(s)
    ensures !Contains(s, "px")
    decreases |s|
  {
    if s != [] {
      assert s[0] != 'p';
      NoPxInDigits(s[1..]);
    }
  }

  /** After deleting `px`, any character a number cannot hold makes the parse fail. */
  lemma ParseNumberRejectsStrayText(s: string, i: nat)
    requires i < |RemoveAll(s, "px")| && RemoveAll(s, "px")[i] !in DecimalAlphabet
    ensures ParseNumber(s) == Failure(InvalidInput)
  {
    if ParseDecimal(RemoveAll(s, "px")).Some? {
      ParseDecimalAlphabet(RemoveAll(s, "px"));
    }
  }

  // ---------------------------------------------------------------------
  // The pseudo-array argument

  /** Every part trimmed of the characters of `ws`. */
  function TrimEach(parts: seq<string>, ws: set<char>): (r: seq<string>)
    ensures |r| == |parts|
    ensures forall i :: 0 <= i < |r| ==> r[i] == Trim(parts[i], ws)
  {
    seq(|parts|, i requires 0 <= i < |parts| => Trim(parts[i], ws))
  }

  /** The path strings `parseInput` sees: brackets removed, split on commas, trimmed. */
  function InputParts(input: string): seq<string>
  {
    TrimEach(Split(RemoveChars(input, {'[', ']'}), ','), Whitespaces)
  }

  /**
   * `parseInput` up to building the URL: exactly one path, and it names the
   * tokens file.
   */
  function ParseInput(input: string): (r: Result<string, ParseInputError>)
    ensures r.Success? ==> Contains(r.value, TokensFileName)
    ensures r.Success? ==> ',' !in r.value && '[' !in r.value && ']' !in r.value
    ensures r.Success? ==> r.value == Trim(r.value, Whitespaces)
    ensures r.Success? ==> Contains(RemoveChars(input, {'[', ']'}), r.value)
    ensures !Contains(RemoveChars(input, {'[', ']'}), TokensFileName) ==> r == Failure(WrongArguments)
  {
    var parts := InputParts(input);
    if |parts| == 1 && Contains(parts[0], TokensFileName) then
      PathPieceIsClean(input);
      PathPieceInInput(input, TokensFileName);
      PathPieceInInput(input, parts[0]);
      Success(parts[0])
    else Failure(WrongArguments)
  }

  /** What a path piece contains, the input without its brackets contains. */
  lemma PathPieceInInput(input: string, w: string)
    requires |InputParts(input)| == 1 && Contains(InputParts(input)[0], w)
    ensures Contains(RemoveChars(input, {'[', ']'}), w)
  {
    var stripped := RemoveChars(input, {'[', ']'});
    ContainsOfTrim(Split(stripped, ',')[0], Whitespaces, w);
    ContainsOfSplit(stripped, ',', 0, w);
  }

  lemma PathPieceIsClean(input: string)
    requires |InputParts(input)| == 1
    ensures var p := InputParts(input)[0];
      ',' !in p && '[' !in p && ']' !in p && p == Trim(p, Whitespaces)
  {
    var stripped := RemoveChars(input, {'[', ']'});
    var piece := Split(stripped, ',')[0];
    var p := Trim(piece, Whitespaces);
    assert InputParts(input)[0] == p;
    assert ',' !in p && '[' !in p && ']' !in p by {
      assert ',' !in piece && forall c :: c in piece ==> c in stripped;
      assert '[' !in stripped && ']' !in stripped;
      TrimIsInfix(piece, Whitespaces);
    }
    TrimUntrimmed(p, Whitespaces);
  }

  lemma TrimIsInfix(s: string, ws: set<char>)
    ensures forall c :: c in Trim(s, ws) ==> c in s
  {
    var t := TrimStart(s, ws);
    TrimStartSuffix(s, ws);
    TrimEndPrefix(t, ws);
    assert forall c :: c in t ==> c in s;
  }

  /** A clean path inside brackets is accepted as it is. */
  lemma ParseInputSinglePath(path: string)
    requires Contains(path, TokensFileName)
    requires ',' !in path && '[' !in path && ']' !in path
    requires path[0] !in Whitespaces && path[|path| - 1] !in Whitespaces
    ensures ParseInput("[" + path + "]") == Success(path)
  {
    BracketedParts(path);
  }

  /** A clean bracketed path that does not name the tokens file is refused. */
  lemma ParseInputRejectsOtherFile(path: string)
    requires !Contains(path, TokensFileName)
    requires path != [] && ',' !in path && '[' !in path && ']' !in path
    requires path[0] !in Whitespaces && path[|path| - 1] !in Whitespaces
    ensures ParseInput("[" + path + "]") == Failure(WrongArguments)
  {
    BracketedParts(path);
  }

  /** An empty pseudo-array names no path and is refused. */
  lemma ParseInputRejectsEmpty()
    ensures ParseInput("[]") == Failure(WrongArguments)
  {
    assert RemoveChars("[]", {'[', ']'}) == [] by {
      assert "[]"[1..] == "]";
      assert "]"[1..] == [];
    }
    assert InputParts("[]") == [];
  }

  /** A clean path in brackets is the only piece `parseInput` sees. */
  lemma BracketedParts(path: string)
    requires path != [] && ',' !in path && '[' !in path && ']' !in path
    requires path[0] !in Whitespaces && path[|path| - 1] !in Whitespaces
    ensures InputParts("[" + path + "]") == [path]
  {
    var input := "[" + path + "]";
    assert RemoveChars(input, {'[', ']'}) == path by {
      assert input == ['['] + path + [']'];
      RemoveCharsAround(path);
    }
    SplitSinglePiece(path, ',');
    TrimUntrimmed(path, Whitespaces);
  }

  lemma RemoveCharsAround(path: string)
    requires '[' !in path && ']' !in path
    ensures RemoveChars(['['] + path + [']'], {'[', ']'}) == path
  {
    RemoveCharsKeeps(path, [']']);
    assert (['['] + path + [']'])[1..] == path + [']'];
  }

  lemma {:induction false} RemoveCharsKeeps(path: string, tail: string)
    requires '[' !in path && ']' !in path
    requires tail == [']']
    ensures RemoveChars(path + tail, {'[', ']'}) == path
    decreases |path|
  {
    if path == [] {
      assert RemoveChars(tail[1..], {'[', ']'}) == [];
    } else {
      assert (path + tail)[1..] == path[1..] + tail;
      RemoveCharsKeeps(path[1..], tail);
    }
  }

  /** Two comma-separated paths are always refused, whatever they name. */
  lemma ParseInputRejectsTwoPaths(first: string, second: string)
    requires first != [] && second != []
    requires ',' !in first && '[' !in first && ']' !in first
    requires ',' !in second && '[' !in second && ']' !in second
    ensures ParseInput("[" + first + "," + second + "]") == Failure(WrongArguments)
  {
    var body := first + "," + second;
    assert ',' in body by { assert body[|first|] == ','; }
    assert '[' !in body && ']' !in body;
    RemoveCharsAround(body);
    assert "[" + first + "," + second + "]" == ['['] + body + [']'];
    SplitFirstPiece(first, ',', second);
    SplitSinglePiece(second, ',');
    assert body == first + [','] + second;
  }
}
