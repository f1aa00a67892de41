/**
 * The token records of the generator: a colour token (its type and value
 * text, and the colour the value spells) and a number token (its type and
 * the number its value text spells), with the order number tokens are
 * listed in.
 */
module Model {

  import opened Wrappers
  import opened Strings
  import opened Decimal
  import opened Literals

  /** A colour token: `type` is kept as `kind`; `value` is hex text or a `{Colors.…}` reference. */
  datatype ColorInfo = ColorInfo(kind: string, value: string)
  {
    /** `rgba`: the colour `parseHex` reads from the value, or `None` where it throws. */
    function Rgba(): (r: Option<RGBA>)
      ensures r.Some? <==> ParseHex(value).Success?
      ensures r.Some? ==> r.value == ParseHex(value).value && InUnitRange(r.value)
    {
      match ParseHex(value)
      case Success(c) => Some(c)
      case Failure(_) => None
    }
  }

  /** A number token: `type` is kept as `kind`, the value is the parsed number. */
  datatype NumberInfo = NumberInfo(kind: string, value: real)

  /**
   * `NumberInfo.init(from:)` once the two string fields are decoded: the
   * value text goes through `parseNumber`, whose error is rethrown.
   */
  function DecodeNumberInfo(kind: string, valueText: string): (r: Result<NumberInfo, NumberDecodingError>)
    ensures r.Success? <==> ParseNumber(valueText).Success?
    ensures r.Success? ==> r.value.kind == kind && r.value.value == ParseNumber(valueText).value
    ensures r.Failure? ==> r.error == ParseNumber(valueText).error
  {
    match ParseNumber(valueText)
    case Success(v) => Success(NumberInfo(kind, v))
    case Failure(e) => Failure(e)
  }

  /** `NumberInfo.<`: compares the values and nothing else. */
  predicate Less(a: NumberInfo, b: NumberInfo)
  {
    a.value < b.value
  }

  /** The order ignores the type, is a strict order, and any two tokens are ordered or tied. */
  lemma LessIsStrictWeakOrder(a: NumberInfo, b: NumberInfo, c: NumberInfo)
    ensures Less(a, b) <==> Less(NumberInfo(c.kind, a.value), NumberInfo(a.kind, b.value))
    ensures !Less(a, a)
    ensures Less(a, b) && Less(b, c) ==> Less(a, c)
    ensures Less(a, b) || Less(b, a) || a.value == b.value
  {
  }

  /** A reference value `{Colors.…}` is never a colour: `{` is not a hex digit, `#` or white space. */
  lemma ReferenceHasNoRgba(c: ColorInfo)
    requires StartsWith(c.value, "{Colors.")
    ensures c.Rgba() == None
  {
    var t := Trim(c.value, WhitespacesAndNewlines);
    assert c.value[0] == '{';
    assert TrimStart(c.value, WhitespacesAndNewlines) == c.value;
    TrimEndKeepsFirst(c.value, WhitespacesAndNewlines);
    var d := HexDigitsOf(c.value);
    assert d == [t[0]] + RemoveAll(t[1..], "#") by {
      assert t[..1] != "#";
    }
    assert !IsHexDigit(d[0]);
  }

  lemma {:induction false} TrimEndKeepsFirst(s: string, ws: set<char>)
    requires s != [] && s[0] !in ws
    ensures TrimEnd(s, ws) != [] && TrimEnd(s, ws)[0] == s[0]
    decreases |s|
  {
    if s[|s| - 1] in ws {
      assert |s| > 1;
      TrimEndKeepsFirst(s[..|s| - 1], ws);
    }
  }

  /** Decoding `"<n>px"` with any type gives exactly `n`. */
  lemma DecodeWholePixels(kind: string, n: nat)
    ensures DecodeNumberInfo(kind, NatToString(n) + "px") == Success(NumberInfo(kind, n as real))
  {
    ParseNumberOfNat(n);
  }
}
