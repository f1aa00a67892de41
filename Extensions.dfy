/**
 * The `String` extensions the generator uses to turn token names into Swift
 * identifiers and to read semantic colour values: case conversion, prefix
 * and substring removal, reference-key extraction, `rgba(…)` alpha
 * extraction, hex-colour recognition and alpha rewriting.
 */
module Extensions {

  import opened Wrappers
  import opened Strings
  import opened Decimal
  import opened Literals

  // ---------------------------------------------------------------------
  // Case conversion

  /** Where `capitalized` starts a word: the first character, or one after white space. */
  predicate WordStart(s: string, i: nat)
    requires i < |s|
  {
    i == 0 || s[i - 1] in WhitespacesAndNewlines
  }

  /**
   * `capitalized`: the first character of every word upper case, every other
   * character lower case; words are delimited by spaces, tabs and line breaks.
   */
  function Capitalized(s: string): (r: string)
    ensures |r| == |s| && Lower(r) == Lower(s)
    ensures forall i :: 0 <= i < |s| && WordStart(s, i) ==> !IsLower(r[i])
    ensures forall i :: 0 <= i < |s| && !WordStart(s, i) ==> !IsUpper(r[i])
  {
    seq(|s|, i requires 0 <= i < |s| => CapitalizedChar(s[i], WordStart(s, i)))
  }

  /** One character of `capitalized`: upper case at a word start, lower case elsewhere. */
  function CapitalizedChar(c: char, start: bool): (d: char)
    ensures LowerChar(d) == LowerChar(c)
    ensures start ==> !IsLower(d)
    ensures !start ==> !IsUpper(d)
  {
    if start then UpperChar(c) else LowerChar(c)
  }

  function CapitalizeEach(words: seq<string>): (r: seq<string>)
    ensures |r| == |words|
    ensures forall i :: 0 <= i < |r| ==> r[i] == Capitalized(words[i])
  {
    if words == [] then [] else [Capitalized(words[0])] + CapitalizeEach(words[1..])
  }

  /** Capitalising word by word and joining changes letters' case and nothing else. */
  lemma {:induction false} LowerJoinCapitalized(words: seq<string>)
    ensures Lower(Join(CapitalizeEach(words))) == Lower(Join(words))
  {
    if words != [] {
      assert CapitalizeEach(words)[1..] == CapitalizeEach(words[1..]);
      LowerJoinCapitalized(words[1..]);
      LowerAppend(Capitalized(words[0]), Join(CapitalizeEach(words[1..])));
      LowerAppend(words[0], Join(words[1..]));
    }
  }

  /**
   * `toPascalCase`: split on spaces, capitalise each word, join. The result
   * has no space and spells the input's other characters, up to case.
   */
  function ToPascalCase(s: string): (r: string)
    ensures ' ' !in r
    ensures Lower(r) == Lower(RemoveChars(s, {' '}))
  {
    var words := Split(s, ' ');
    var r := Join(CapitalizeEach(words));
    assert Lower(r) == Lower(RemoveChars(s, {' '})) by {
      LowerJoinCapitalized(words);
      JoinSplit(s, ' ');
    }
    assert ' ' !in r by {
      NonLetterInLower(r, ' ');
      NonLetterInLower(RemoveChars(s, {' '}), ' ');
    }
    r
  }

  /** Two space-separated words become the two capitalised words side by side. */
  lemma PascalCaseOfTwoWords(a: string, b: string)
    requires a != [] && b != [] && ' ' !in a && ' ' !in b
    ensures ToPascalCase(a + " " + b) == Capitalized(a) + Capitalized(b)
  {
    SplitFirstPiece(a, ' ', b);
    SplitSinglePiece(b, ' ');
    var words := Split(a + " " + b, ' ');
    assert words == [a, b];
    assert CapitalizeEach(words) == [Capitalized(a), Capitalized(b)];
    assert Join([Capitalized(b)]) == Capitalized(b);
  }

  /** `toCamelCase`: `toPascalCase` with its first character lower case. */
  function ToCamelCase(s: string): (r: string)
    ensures ' ' !in r
    ensures Lower(r) == Lower(RemoveChars(s, {' '}))
    ensures |r| == |ToPascalCase(s)| && (r != [] ==> !IsUpper(r[0]) && r[1..] == ToPascalCase(s)[1..])
  {
    var p := ToPascalCase(s);
    if p == [] then []
    else
      var r := [LowerChar(p[0])] + p[1..];
      assert Lower(r) == Lower(p);
      r
  }

  /** A single word is its first letter upper case and the rest lower case. */
  lemma CapitalizedWord(w: string)
    requires w != [] && forall i :: 0 <= i < |w| ==> w[i] !in WhitespacesAndNewlines
    ensures Capitalized(w) == [UpperChar(w[0])] + Lower(w[1..])
  {
    var r := Capitalized(w);
    forall i | 0 <= i < |w| ensures r[i] == ([UpperChar(w[0])] + Lower(w[1..]))[i] {
      if i > 0 {
        assert !WordStart(w, i);
        assert Lower(w[1..])[i - 1] == LowerChar(w[i]);
      }
    }
  }

  /** A non-empty run of characters none of which separates words. */
  predicate IsWord(w: string)
  {
    w != [] && forall i :: 0 <= i < |w| ==> w[i] !in WhitespacesAndNewlines && w[i] != '-'
  }

  /**
   * Two words in camel case: the first lower case, the second capitalised
   * (`"Hello World"` gives `"helloWorld"`); Pascal case capitalises both,
   * as `PascalCaseOfTwoWords` and `CapitalizedWord` state.
   */
  lemma CamelCaseOfTwoWords(a: string, b: string)
    requires IsWord(a) && IsWord(b)
    ensures ToCamelCase(a + " " + b) == Lower(a) + Capitalized(b)
  {
    var rest := Lower(a[1..]) + Capitalized(b);
    PascalOfWordThenRest(a, b);
    CamelOfPascal(a + " " + b, UpperChar(a[0]), rest);
    LowerOfUpper(a[0]);
    LowerHeadThenRest(a, Capitalized(b));
  }

  lemma PascalOfWordThenRest(a: string, b: string)
    requires IsWord(a) && IsWord(b)
    ensures ToPascalCase(a + " " + b) == [UpperChar(a[0])] + (Lower(a[1..]) + Capitalized(b))
  {
    PascalCaseOfTwoWords(a, b);
    CapitalizedWord(a);
    ConcatAssoc([UpperChar(a[0])], Lower(a[1..]), Capitalized(b));
  }

  lemma LowerOfUpper(c: char)
    ensures LowerChar(UpperChar(c)) == LowerChar(c)
  {
  }

  lemma LowerHeadThenRest(a: string, z: string)
    requires a != []
    ensures [LowerChar(a[0])] + (Lower(a[1..]) + z) == Lower(a) + z
  {
    LowerCons(a);
    ConcatAssoc([LowerChar(a[0])], Lower(a[1..]), z);
  }

  lemma LowerCons(a: string)
    requires a != []
    ensures Lower(a) == [LowerChar(a[0])] + Lower(a[1..])
  {
  }

  lemma ConcatAssoc(x: string, y: string, z: string)
    ensures (x + y) + z == x + (y + z)
  {
  }

  lemma CamelOfPascal(s: string, c: char, rest: string)
    requires ToPascalCase(s) == [c] + rest
    ensures ToCamelCase(s) == [LowerChar(c)] + rest
  {
  }

  // ---------------------------------------------------------------------
  // Prefixes, substrings and identifiers

  /**
   * `toCGFloat`: `Double(self)` widened to `CGFloat`, both exact reals
   * here; `None` where the text is not a decimal number.
   */
  function ToCGFloat(s: string): (r: Option<real>)
    ensures r.Some? ==> s != [] && forall i :: 0 <= i < |s| ==> s[i] in DecimalAlphabet
  {
    var d := ParseDecimal(s);
    if d.Some? then
      ParseDecimalAlphabet(s);
      d
    else None
  }

  /** Decimal digits read back as the number they spell. */
  lemma ToCGFloatOfNat(n: nat)
    ensures ToCGFloat(NatToString(n)) == Some(n as real)
  {
    ParseDecimalOfNat(n);
  }

  /** Any character a decimal literal cannot hold makes the conversion fail. */
  lemma ToCGFloatRejectsStrayText(s: string, i: nat)
    requires i < |s| && s[i] !in DecimalAlphabet
    ensures ToCGFloat(s) == None
  {
  }

  /** `deletingPrefix`: drops `prefix` exactly when the string starts with it. */
  function DeletingPrefix(s: string, prefix: string): (r: string)
    ensures StartsWith(s, prefix) ==> prefix + r == s
    ensures !StartsWith(s, prefix) ==> r == s
  {
    if StartsWith(s, prefix) then s[|prefix|..] else s
  }

  /** `isNumeric`: every character is a decimal digit (so the empty string is numeric). */
  predicate IsNumeric(s: string)
  {
    forall i :: 0 <= i < |s| ==> IsDigit(s[i])
  }

  /** `appendBackticks`: wraps the name in backticks so keywords can be used as identifiers. */
  function AppendBackticks(s: string): (r: string)
    ensures |r| == |s| + 2 && r[0] == '`' && r[|r| - 1] == '`' && r[1..|r| - 1] == s
  {
    "`" + s + "`"
  }

  /**
   * `removeSubstringIfNotWholeWord`: a name that is the parent name (ignoring
   * case) stays as it is; otherwise every case-insensitive occurrence of the
   * parent name is removed.
   */
  function RemoveSubstringIfNotWholeWord(s: string, parent: string): (r: string)
    ensures Lower(s) == Lower(parent) ==> r == s
    ensures Lower(s) != Lower(parent) ==> r == ReplaceAllIgnoringCase(s, parent, "")
    ensures |r| <= |s|
  {
    if Lower(s) == Lower(parent) then s else ReplaceAllIgnoringCase(s, parent, "")
  }

  /** A leading occurrence of the parent name, in any case, is cut from a longer name. */
  lemma RemoveLeadingParent(parent: string, rest: string, spelled: string)
    requires parent != [] && |spelled| == |parent| && Lower(spelled) == Lower(parent)
    requires Lower(spelled + rest) != Lower(parent)
    ensures RemoveSubstringIfNotWholeWord(spelled + rest, parent) ==
      ReplaceAllIgnoringCase(rest, parent, "")
  {
    var s := spelled + rest;
    assert s[..|parent|] == spelled;
    assert s[|parent|..] == rest;
  }

  /** A number name made of digits only gets a leading underscore. */
  function SanitizeNumberVariableName(s: string): (r: string)
    ensures IsNumeric(s) ==> r == "_" + s
    ensures !IsNumeric(s) ==> ' ' !in r && '-' !in r
  {
    if IsNumeric(s) then "_" + s
    else
      var spaced := ReplaceAll(DeletingPrefix(s, "--border-radius-"), "-", " ");
      var r := ToCamelCase(spaced);
      assert '-' !in r by {
        ReplaceCharRemovesIt(DeletingPrefix(s, "--border-radius-"), '-', ' ');
        NoDashAfterCamelCase(spaced);
      }
      r
  }

  /** Case conversion never brings back a `-` the input does not have. */
  lemma NoDashAfterCamelCase(s: string)
    requires '-' !in s
    ensures '-' !in ToCamelCase(s)
  {
    var r := ToCamelCase(s);
    NonLetterInLower(r, '-');
    NonLetterInLower(RemoveChars(s, {' '}), '-');
  }

  /** A semantic colour name becomes a backticked camel-case identifier without `-` or spaces. */
  function SanitizeSemanticVariableName(s: string, parent: string): (r: string)
    ensures |r| >= 2 && r[0] == '`' && r[|r| - 1] == '`'
    ensures ' ' !in r[1..|r| - 1] && '-' !in r[1..|r| - 1]
  {
    var stripped := RemoveSubstringIfNotWholeWord(DeletingPrefix(s, "--color-"), parent);
    var spaced := ReplaceAll(stripped, "-", " ");
    var name := ToCamelCase(spaced);
    assert '-' !in name by {
      ReplaceCharRemovesIt(stripped, '-', ' ');
      NoDashAfterCamelCase(spaced);
    }
    AppendBackticks(name)
  }

  /** `"--border-radius-foo-bar"` is named as the words `"foo bar"` in camel case, that is `"fooBar"`. */
  lemma NumberNameOfTwoWords(a: string, b: string)
    requires IsWord(a) && IsWord(b)
    ensures SanitizeNumberVariableName("--border-radius-" + a + "-" + b) == ToCamelCase(a + " " + b)
  {
    var s := "--border-radius-" + a + "-" + b;
    assert !IsNumeric(s) by {
      assert !IsDigit(s[0]);
    }
    assert DeletingPrefix(s, "--border-radius-") == a + "-" + b by {
      assert s == "--border-radius-" + (a + "-" + b);
    }
    DashesToSpaces(a, b);
  }

  /** The one `-` between two words becomes a space. */
  lemma DashesToSpaces(a: string, b: string)
    requires IsWord(a) && IsWord(b)
    ensures ReplaceAll(a + "-" + b, "-", " ") == a + " " + b
  {
    ReplaceCharSplit(a, '-', b, " ");
    ReplaceAbsentChar(b, '-', " ");
    assert a + "-" + b == a + ['-'] + b;
  }

  /** `pat` occurs at `i` in `s`, comparing under `Lower`. */
  predicate MatchesIgnoringCase(s: string, pat: string, i: nat)
  {
    i + |pat| <= |s| && Lower(s[i..i + |pat|]) == Lower(pat)
  }

  /** Text with no case-insensitive occurrence of the pattern is left alone by the removal. */
  lemma {:induction false} ReplaceIgnoringCaseAbsent(s: string, pat: string)
    requires pat != []
    requires forall i: nat :: !MatchesIgnoringCase(s, pat, i)
    ensures ReplaceAllIgnoringCase(s, pat, "") == s
    decreases |s|
  {
    if |s| >= |pat| {
      assert !MatchesIgnoringCase(s, pat, 0);
      assert s[0..|pat|] == s[..|pat|];
      forall i: nat ensures !MatchesIgnoringCase(s[1..], pat, i) {
        assert !MatchesIgnoringCase(s, pat, i + 1);
        if i + |pat| <= |s[1..]| {
          assert s[1..][i..i + |pat|] == s[i + 1..i + 1 + |pat|];
        }
      }
      ReplaceIgnoringCaseAbsent(s[1..], pat);
    }
  }

  /**
   * `"--color-parent-foo-bar"` with parent `"parent"` is named `` `fooBar` ``:
   * the prefix and the parent go, the words are camel-cased and backticked.
   */
  lemma SemanticNameOfTwoWords(parent: string, a: string, b: string)
    requires IsWord(parent) && IsWord(a) && IsWord(b)
    requires forall i: nat :: !MatchesIgnoringCase("-" + a + "-" + b, parent, i)
    ensures SanitizeSemanticVariableName("--color-" + parent + "-" + a + "-" + b, parent) ==
      AppendBackticks(ToCamelCase(a + " " + b))
  {
    var rest := "-" + a + "-" + b;
    StripColorPrefix(parent, rest, a, b);
    StripParent(parent, rest);
    LeadingDashToSpace(a, b);
    LeadingSpaceSplit(a + " " + b);
    SemanticNameSteps("--color-" + parent + "-" + a + "-" + b, parent, rest, " " + (a + " " + b), a + " " + b);
  }

  /** The naming steps one by one: prefix, parent, dashes, camel case. */
  lemma SemanticNameSteps(s: string, parent: string, rest: string, spaced: string, words: string)
    requires DeletingPrefix(s, "--color-") == parent + rest
    requires RemoveSubstringIfNotWholeWord(parent + rest, parent) == rest
    requires ReplaceAll(rest, "-", " ") == spaced
    requires ToCamelCase(spaced) == ToCamelCase(words)
    ensures SanitizeSemanticVariableName(s, parent) == AppendBackticks(ToCamelCase(words))
  {
  }

  lemma StripColorPrefix(parent: string, rest: string, a: string, b: string)
    requires rest == "-" + a + "-" + b
    ensures DeletingPrefix("--color-" + parent + "-" + a + "-" + b, "--color-") == parent + rest
  {
    assert "--color-" + parent + "-" + a + "-" + b == "--color-" + (parent + rest);
  }

  lemma StripParent(parent: string, rest: string)
    requires parent != [] && rest != []
    requires forall i: nat :: !MatchesIgnoringCase(rest, parent, i)
    ensures RemoveSubstringIfNotWholeWord(parent + rest, parent) == rest
  {
    assert Lower(parent + rest) != Lower(parent) by {
      assert |Lower(parent + rest)| > |Lower(parent)|;
    }
    RemoveLeadingParent(parent, rest, parent);
    ReplaceIgnoringCaseAbsent(rest, parent);
  }

  lemma LeadingDashToSpace(a: string, b: string)
    requires IsWord(a) && IsWord(b)
    ensures ReplaceAll("-" + a + "-" + b, "-", " ") == " " + (a + " " + b)
  {
    ReplaceCharSplit([], '-', a + "-" + b, " ");
    DashesToSpaces(a, b);
    assert "-" + a + "-" + b == [] + ['-'] + (a + "-" + b);
  }

  /** A leading space does not change the words, so neither does it change the camel case. */
  lemma LeadingSpaceSplit(s: string)
    ensures ToCamelCase(" " + s) == ToCamelCase(s)
  {
    assert (" " + s)[1..] == s;
    assert Split(" " + s, ' ') == Split(s, ' ');
  }

  // ---------------------------------------------------------------------
  // Reference keys in semantic colour values

  const ReferenceOpen: string := "{Colors."

  /**
   * `sanitizeSemanticJSONKey` as written: the lower-cased text between the
   * first `{Colors.` and the first `}`. When that `}` comes before the
   * `{Colors.`, the range's lower bound exceeds its upper bound and Swift
   * traps; that outcome is `None`.
   */
  function SanitizeSemanticJsonKeyAsWritten(s: string): (r: Option<string>)
    ensures (IndexOf(s, ReferenceOpen).None? || IndexOf(s, "}").None?) ==> r == Some(s)
  {
    match IndexOf(s, ReferenceOpen)
    case None => Some(s)
    case Some(start) =>
      match IndexOf(s, "}")
      case None => Some(s)
      case Some(end) =>
        if start + |ReferenceOpen| <= end then Some(Lower(s[start + |ReferenceOpen|..end])) else None
  }

  /** A value whose first `}` precedes `{Colors.` makes the source trap. */
  lemma SanitizeTrapsOnEarlyBrace()
    ensures SanitizeSemanticJsonKeyAsWritten("}{Colors.a}") == None
  {
    var s := "}{Colors.a}";
    assert OccursAt(s, ReferenceOpen, 1) by {
      assert s[1..9] == ReferenceOpen;
    }
    assert !OccursAt(s, ReferenceOpen, 0) by {
      assert s[0..8][0] == '}';
    }
    assert OccursAt(s, "}", 0) by {
      assert s[0..1] == "}";
    }
  }

  /**
   * `sanitizeSemanticJSONKey` with the closing brace searched after the
   * opening marker: the lower-cased key between `{Colors.` and the next `}`,
   * or the input unchanged when either marker is missing.
   */
  function SanitizeSemanticJsonKey(s: string): (r: string)
    ensures IndexOf(s, ReferenceOpen).None? ==> r == s
  {
    match IndexOf(s, ReferenceOpen)
    case None => s
    case Some(start) =>
      var after := s[start + |ReferenceOpen|..];
      match IndexOf(after, "}")
      case None => s
      case Some(end) => Lower(after[..end])
  }

  /** Wherever the source does not trap, the corrected key is the source's key. */
  lemma SanitizeAgreesWhereDefined(s: string)
    requires SanitizeSemanticJsonKeyAsWritten(s).Some?
    ensures SanitizeSemanticJsonKey(s) == SanitizeSemanticJsonKeyAsWritten(s).value
  {
    if IndexOf(s, ReferenceOpen).Some? {
      var k := IndexOf(s, ReferenceOpen).value + |ReferenceOpen|;
      IndexOfSuffix(s, "}", k);
    }
  }

  /**
   * A reference `{Colors.<path>}` after text with no brace gives the
   * lower-cased path, in the source as written and in the corrected version.
   */
  lemma SanitizeReference(pre: string, path: string, post: string)
    requires '{' !in pre && '}' !in pre && '}' !in path
    ensures SanitizeSemanticJsonKeyAsWritten(pre + ReferenceOpen + path + "}" + post) == Some(Lower(path))
    ensures SanitizeSemanticJsonKey(pre + ReferenceOpen + path + "}" + post) == Lower(path)
  {
    var s := pre + ReferenceOpen + path + "}" + post;
    var rest := path + "}" + post;
    assert s == pre + ReferenceOpen + rest;
    FirstReferenceOpen(s, pre, rest);
    FirstClosingBrace(rest, path, post);
    ReferenceAsWritten(s, pre, path, post);
  }

  /** The source's own search finds the same `{Colors.` and the same `}` when no brace precedes them. */
  lemma ReferenceAsWritten(s: string, pre: string, path: string, post: string)
    requires '{' !in pre && '}' !in pre && '}' !in path
    requires s == pre + ReferenceOpen + path + "}" + post
    ensures SanitizeSemanticJsonKeyAsWritten(s) == Some(Lower(path))
  {
    var start := |pre|;
    var end := start + |ReferenceOpen| + |path|;
    ReferenceOpenAt(s, pre, path, post);
    ClosingBraceAt(s, pre, path, post, end);
    AsWrittenBetween(s, start, end, path);
  }

  lemma ReferenceOpenAt(s: string, pre: string, path: string, post: string)
    requires '{' !in pre && s == pre + ReferenceOpen + path + "}" + post
    ensures IndexOf(s, ReferenceOpen) == Some(|pre|)
  {
    assert s == pre + ReferenceOpen + (path + "}" + post);
    FirstReferenceOpen(s, pre, path + "}" + post);
  }

  lemma ClosingBraceAt(s: string, pre: string, path: string, post: string, end: nat)
    requires '}' !in pre && '}' !in path && s == pre + ReferenceOpen + path + "}" + post
    requires end == |pre| + |ReferenceOpen| + |path|
    ensures IndexOf(s, "}") == Some(end)
    ensures s[|pre| + |ReferenceOpen|..end] == path
  {
    var head := pre + ReferenceOpen + path;
    ReferenceOpenHasNoClosingBrace();
    assert '}' !in head;
    FirstClosingBrace(s, head, post);
    assert s[..|head|] == head;
  }

  lemma ReferenceOpenHasNoClosingBrace()
    ensures '}' !in ReferenceOpen
  {
    assert ReferenceOpen == ['{', 'C', 'o', 'l', 'o', 'r', 's', '.'];
  }

  /** With the marker at `start` and the first `}` at or after its end, the source reads the text in between. */
  lemma AsWrittenBetween(s: string, start: nat, end: nat, key: string)
    requires IndexOf(s, ReferenceOpen) == Some(start) && IndexOf(s, "}") == Some(end)
    requires start + |ReferenceOpen| <= end && s[start + |ReferenceOpen|..end] == key
    ensures SanitizeSemanticJsonKeyAsWritten(s) == Some(Lower(key))
  {
  }

  /** After `{`-free text, the marker `{Colors.` is found where that text ends. */
  lemma FirstReferenceOpen(s: string, pre: string, rest: string)
    requires '{' !in pre && s == pre + ReferenceOpen + rest
    ensures IndexOf(s, ReferenceOpen) == Some(|pre|)
    ensures s[|pre| + |ReferenceOpen|..] == rest
  {
    var k := |pre| + |ReferenceOpen|;
    assert OccursAt(s, ReferenceOpen, |pre|) by {
      assert s[|pre|..k] == ReferenceOpen;
    }
    forall i: nat | i < |pre| ensures !OccursAt(s, ReferenceOpen, i) {
      assert s[i] == pre[i] && s[i] != '{';
      if i + |ReferenceOpen| <= |s| {
        assert s[i..i + |ReferenceOpen|][0] == s[i];
      }
    }
  }

  /** After `}`-free text, the first `}` is the one that follows it. */
  lemma FirstClosingBrace(after: string, path: string, post: string)
    requires '}' !in path && after == path + "}" + post
    ensures IndexOf(after, "}") == Some(|path|) && after[..|path|] == path
  {
    assert OccursAt(after, "}", |path|) by {
      assert after[|path|..|path| + 1] == "}";
    }
    forall i: nat | i < |path| ensures !OccursAt(after, "}", i) {
      assert after[i..i + 1][0] == path[i];
    }
  }

  /** `"rgba( {Colors.Grey.500}, 0.1)"` gives the key `"grey.500"`. */
  lemma SanitizeExample()
    ensures SanitizeSemanticJsonKey("rgba( {Colors.Grey.500}, 0.1)") == "grey.500"
  {
    SanitizeReference("rgba( ", "Grey.500", ", 0.1)");
    SanitizeExampleSpelling();
    GreyLowered();
  }

  lemma SanitizeExampleSpelling()
    ensures "rgba( " + ReferenceOpen + "Grey.500" + "}" + ", 0.1)" == "rgba( {Colors.Grey.500}, 0.1)"
  {
  }

  lemma GreyLowered()
    ensures Lower("Grey.500") == "grey.500"
  {
  }

  // ---------------------------------------------------------------------
  // Alpha of `rgba(…)` values

  /**
   * `alphaValueFromSemanticColors`: only for text starting with `rgba`; with
   * `rgba(` and `)` removed, the last comma-separated piece, trimmed of
   * spaces and tabs, read as a number.
   */
  function AlphaValueFromSemanticColors(s: string): (r: Option<real>)
    ensures !StartsWith(s, "rgba") ==> r == None
  {
    if !StartsWith(s, "rgba") then None
    else
      var pieces := Split(RemoveAll(RemoveAll(s, "rgba("), ")"), ',');
      if pieces == [] then None
      else ParseDecimal(Trim(pieces[|pieces| - 1], Whitespaces))
  }

  /** For `rgba(<colour>,<alpha>)`, the alpha is the trimmed last argument read as a number. */
  lemma AlphaOfRgba(colour: string, alpha: string)
    requires alpha != []
    requires '(' !in colour && ')' !in colour && '(' !in alpha && ')' !in alpha && ',' !in alpha
    ensures AlphaValueFromSemanticColors("rgba(" + colour + "," + alpha + ")") ==
      ParseDecimal(Trim(alpha, Whitespaces))
  {
    var inner := colour + [','] + alpha;
    var s := "rgba(" + colour + "," + alpha + ")";
    assert s == "rgba(" + (inner + [')']);
    assert '(' !in inner + [')'] && ')' !in inner;
    assert !Contains(inner + [')'], "rgba(") by {
      if Contains(inner + [')'], "rgba(") {
        ContainsChar(inner + [')'], "rgba(", '(');
      }
    }
    assert RemoveAll(s, "rgba(") == inner + [')'] by {
      RemoveLeadingOnly("rgba(", inner + [')']);
    }
    assert RemoveAll(inner + [')'], ")") == inner by {
      RemoveCharTrailing(inner, ')');
    }
    var pieces := Split(inner, ',');
    assert pieces != [] && pieces[|pieces| - 1] == alpha by {
      SplitLastPiece(colour, ',', alpha);
    }
    assert StartsWith(s, "rgba") by {
      assert s[..4] == "rgba";
    }
  }

  /**
   * `"rgba(<colour>, 0.3)"` has alpha 0.3 whatever the colour, as long as it
   * has no parenthesis: `"rgba( {Colors.Grey.500}, 0.3)"` is one such value.
   */
  lemma AlphaExample(colour: string, alpha: string)
    requires '(' !in colour && ')' !in colour
    requires |alpha| == 4 && alpha[0] == ' ' && alpha[1] == '0' && alpha[2] == '.' && alpha[3] == '3'
    ensures AlphaValueFromSemanticColors("rgba(" + colour + "," + alpha + ")") == Some(0.3)
  {
    assert '(' !in alpha && ')' !in alpha && ',' !in alpha;
    AlphaOfRgba(colour, alpha);
    BlankPointThree(alpha);
  }

  lemma BlankPointThree(alpha: string)
    requires |alpha| == 4 && alpha[0] == ' ' && alpha[1] == '0' && alpha[2] == '.' && alpha[3] == '3'
    ensures ParseDecimal(Trim(alpha, Whitespaces)) == Some(0.3)
  {
    var t := alpha[1..];
    assert alpha == [' '] + t && t[0] == '0' && t[|t| - 1] == '3';
    TrimLeadingBlank(t);
    PointThree(t);
  }

  /** One leading blank before untrimmed text is trimmed away. */
  lemma TrimLeadingBlank(t: string)
    requires t != [] && t[0] !in Whitespaces && t[|t| - 1] !in Whitespaces
    ensures Trim([' '] + t, Whitespaces) == t
  {
    assert ([' '] + t)[1..] == t;
    assert TrimStart([' '] + t, Whitespaces) == TrimStart(t, Whitespaces);
    TrimUntrimmed(t, Whitespaces);
  }

  lemma PointThree(t: string)
    requires |t| == 3 && t[0] == '0' && t[1] == '.' && t[2] == '3'
    ensures ParseDecimal(t) == Some(0.3)
  {
    assert ParseMantissa(t) == Some(0.3) by {
      assert IndexOf(t, ".") == Some(1) by {
        IndexOfIs(t, ".", 1);
      }
      assert t[..1] == [t[0]] && t[2..] == [t[2]];
      SingleDigit(t[0]);
      SingleDigit(t[2]);
    }
    assert ParseUnsigned(t) == Some(0.3) by {
      assert ExponentMarker(t) == None;
    }
    assert SplitSign(t) == (false, t);
  }

  lemma SingleDigit(c: char)
    requires IsDigit(c)
    ensures DigitsValue([c]) == DigitValue(c)
  {
    assert [c][..0] == [];
  }

  // ---------------------------------------------------------------------
  // Hex colours

  /** The ASCII characters ICU treats as line terminators. */
  const LineTerminators: set<char> := {'\n', '\U{000B}', '\U{000C}', '\r'}

  /** The text an end-anchored pattern is matched against: one final line break is allowed. */
  function DropFinalLineTerminator(s: string): (r: string)
    ensures r <= s && |s| - 2 <= |r|
    ensures forall i :: |r| <= i < |s| ==> s[i] in LineTerminators
  {
    if |s| >= 2 && s[|s| - 2..] == "\r\n" then
      assert s[|s| - 2] == '\r' && s[|s| - 1] == '\n';
      s[..|s| - 2]
    else if s != [] && s[|s| - 1] in LineTerminators then s[..|s| - 1]
    else s
  }

  /** A `#` and then 3, 6 or 8 hex digits, as `isHexColor` matches them. */
  predicate HexColorText(b: string)
  {
    |b| >= 1 && b[0] == '#' && AllHexDigits(b[1..]) && (|b| == 4 || |b| == 7 || |b| == 9)
  }

  /** `isHexColor`: `^#(?:[0-9a-fA-F]{3}|[0-9a-fA-F]{6}|[0-9a-fA-F]{8})$`. */
  predicate IsHexColor(s: string)
  {
    HexColorText(DropFinalLineTerminator(s))
  }

  /** A hex colour is read by `parseHex` as its digits; the shorthand has three. */
  lemma HexDigitsOfHexColor(s: string)
    requires IsHexColor(s)
    ensures HexDigitsOf(s) == DropFinalLineTerminator(s)[1..]
  {
    var b := DropFinalLineTerminator(s);
    var digits := b[1..];
    assert Trim(s, WhitespacesAndNewlines) == b by {
      assert s == b + s[|b|..];
      assert b[|b| - 1] !in WhitespacesAndNewlines;
      assert TrimStart(s, WhitespacesAndNewlines) == s;
      TrimEndSuffix(b, s[|b|..], WhitespacesAndNewlines);
    }
    assert HexDigitsOf(b) == digits by {
      assert b == "#" + digits;
      HexDigitsOfHashed(digits);
    }
    assert Trim(b, WhitespacesAndNewlines) == b by {
      TrimUntrimmed(b, WhitespacesAndNewlines);
    }
  }

  /** `"#ff0000"` and `"#FFF"` are hex colours; `"123456"` and `"#GGGGGG"` are not. */
  lemma HexColorExamples()
    ensures IsHexColor("#ff0000") && IsHexColor("#FFF")
    ensures !IsHexColor("123456") && !IsHexColor("#GGGGGG")
  {
    SixDigitExample();
    ShorthandExample();
    NoHashExample();
    NonDigitExample();
  }

  lemma SixDigitExample()
    ensures IsHexColor("#ff0000")
  {
    assert DropFinalLineTerminator("#ff0000") == "#ff0000";
  }

  lemma ShorthandExample()
    ensures IsHexColor("#FFF")
  {
    assert DropFinalLineTerminator("#FFF") == "#FFF";
  }

  lemma NoHashExample()
    ensures !IsHexColor("123456")
  {
    assert DropFinalLineTerminator("123456") == "123456";
  }

  lemma NonDigitExample()
    ensures !IsHexColor("#GGGGGG")
  {
    assert DropFinalLineTerminator("#GGGGGG") == "#GGGGGG";
    assert !IsHexDigit("#GGGGGG"[1..][0]);
  }

  /** `max(0, min(1, alpha))`. */
  function Clamp01(a: real): (c: real)
    ensures 0.0 <= c <= 1.0
    ensures 0.0 <= a <= 1.0 ==> c == a
  {
    if a < 0.0 then 0.0 else if a > 1.0 then 1.0 else a
  }

  /** `Int(round(clamped * 255))`: the nearest byte, halves rounded up. */
  function AlphaByte(a: real): (b: nat)
    ensures b < 256
    ensures b as real - 0.5 <= Clamp01(a) * 255.0 < b as real + 0.5
  {
    var x := Clamp01(a) * 255.0 + 0.5;
    assert 0.0 <= x < 256.0;
    x.Floor
  }

  /**
   * `updateHexAlpha` as written: with an alpha and a hex colour, `#`, the
   * digits without any alpha pair, then the alpha byte as two hex digits.
   */
  function UpdateHexAlphaAsWritten(s: string, alpha: Option<real>): (r: string)
    ensures alpha.None? || !IsHexColor(s) ==> r == s
    ensures alpha.Some? && IsHexColor(s) ==>
      |r| == |DropFinalLineTerminator(s)| + 2 || |r| == |DropFinalLineTerminator(s)|
  {
    match alpha
    case None => s
    case Some(a) =>
      if !IsHexColor(s) then s
      else
        HexDigitsOfHexColor(s);
        var hex := HexDigitsOf(s);
        var rgb := if |hex| == 8 then hex[..6] else hex;
        "#" + rgb + HexByte(AlphaByte(a))
  }

  /**
   * Every three-digit shorthand, with any alpha, comes out with five digits,
   * which is no colour at all and which `parseHex` refuses.
   */
  lemma UpdateHexAlphaShorthandBreaks(d: string, a: real)
    requires |d| == 3 && AllHexDigits(d)
    ensures UpdateHexAlphaAsWritten("#" + d, Some(a)) == "#" + d + HexByte(AlphaByte(a))
    ensures !IsHexColor("#" + d + HexByte(AlphaByte(a)))
    ensures ParseHex("#" + d + HexByte(AlphaByte(a))) == Failure(InvalidInputLength)
  {
    AsWrittenOfDigits(d, a);
    FiveDigitsAfterHash(d, HexByte(AlphaByte(a)), "#" + d + HexByte(AlphaByte(a)));
  }

  lemma FiveDigitsAfterHash(d: string, byte: string, r: string)
    requires |d| == 3 && AllHexDigits(d) && |byte| == 2 && AllHexDigits(byte)
    requires r == "#" + d + byte
    ensures !IsHexColor(r) && ParseHex(r) == Failure(InvalidInputLength)
  {
    var e := d + byte;
    assert r == "#" + e;
    AllHexDigitsAppend(d, byte);
    FiveDigitsBreak(e, r);
  }

  /** `"#fff"` with alpha 0.5 becomes `"#fff80"`. */
  lemma UpdateHexAlphaShorthandExample(s: string)
    requires s == "#fff"
    ensures UpdateHexAlphaAsWritten(s, Some(0.5)) == s + "80"
    ensures !IsHexColor(s + "80")
  {
    var d := s[1..];
    assert s == "#" + d && |d| == 3 && AllHexDigits(d);
    UpdateHexAlphaShorthandBreaks(d, 0.5);
    AlphaByteHalf();
  }

  /** `updateHexAlpha` as written on `#` and 3 or 6 digits appends the alpha byte. */
  lemma AsWrittenOfDigits(d: string, a: real)
    requires (|d| == 3 || |d| == 6) && AllHexDigits(d)
    ensures UpdateHexAlphaAsWritten("#" + d, Some(a)) == "#" + d + HexByte(AlphaByte(a))
  {
    HashedIsHexColor(d);
    HexDigitsOfHashed(d);
  }

  /** Five hex digits after `#` are not a colour, and `parseHex` refuses their length. */
  lemma FiveDigitsBreak(d: string, r: string)
    requires |d| == 5 && AllHexDigits(d) && r == "#" + d
    ensures !IsHexColor(r)
    ensures ParseHex(r) == Failure(InvalidInputLength)
  {
    assert r[|r| - 1] == d[4];
    assert DropFinalLineTerminator(r) == r;
    HexDigitsOfHashed(d);
  }

  /** Alpha 0.5 is the byte 128, written `80`. */
  lemma AlphaByteHalf()
    ensures AlphaByte(0.5) == 128 && HexByte(128) == "80"
  {
  }

  /** The shorthand `rgb` spelled out as `rrggbb`, as CSS reads it. */
  function ExpandShorthand(d: string): (r: string)
    requires |d| == 3 && AllHexDigits(d)
    ensures |r| == 6 && AllHexDigits(r)
  {
    [d[0], d[0], d[1], d[1], d[2], d[2]]
  }

  /** The red, green and blue digits of a colour's hex digits: a shorthand is spelled out, an alpha pair dropped. */
  function RgbDigits(hex: string): (r: string)
    requires AllHexDigits(hex) && (|hex| == 3 || |hex| == 6 || |hex| == 8)
    ensures |r| == 6 && AllHexDigits(r)
    ensures |hex| != 3 ==> r == hex[..6]
  {
    if |hex| == 8 then hex[..6] else if |hex| == 3 then ExpandShorthand(hex) else hex
  }

  /** `#`, six colour digits, then an alpha byte: a hex colour with those bytes. */
  lemma WithAlphaByte(rgb: string, b: nat, r: string)
    requires |rgb| == 6 && AllHexDigits(rgb) && b < 256
    requires r == "#" + rgb + HexByte(b)
    ensures IsHexColor(r) && |r| == 9
    ensures ParseHex(r) == Success(RGBA(
        PairValue(rgb, 0) as real / 255.0,
        PairValue(rgb, 1) as real / 255.0,
        PairValue(rgb, 2) as real / 255.0,
        b as real / 255.0))
  {
    var d := rgb + HexByte(b);
    assert r == "#" + d;
    WithAlphaPairs(rgb, b);
    EightDigitColour(d, r);
    SamePairs(r, d, rgb, b);
  }

  /** A colour read from eight digits is the one read from six digits with the same first pairs, plus the alpha. */
  lemma SamePairs(r: string, d: string, rgb: string, b: nat)
    requires |d| == 8 && AllHexDigits(d) && |rgb| == 6 && AllHexDigits(rgb)
    requires ParseHex(r) == Success(RGBA(
        PairValue(d, 0) as real / 255.0,
        PairValue(d, 1) as real / 255.0,
        PairValue(d, 2) as real / 255.0,
        PairValue(d, 3) as real / 255.0))
    requires PairValue(d, 0) == PairValue(rgb, 0) && PairValue(d, 1) == PairValue(rgb, 1)
    requires PairValue(d, 2) == PairValue(rgb, 2) && PairValue(d, 3) == b
    ensures ParseHex(r) == Success(RGBA(
        PairValue(rgb, 0) as real / 255.0,
        PairValue(rgb, 1) as real / 255.0,
        PairValue(rgb, 2) as real / 255.0,
        b as real / 255.0))
  {
  }

  /** `#` and eight hex digits: a hex colour whose four bytes are the digit pairs. */
  lemma EightDigitColour(d: string, r: string)
    requires |d| == 8 && AllHexDigits(d) && r == "#" + d
    ensures IsHexColor(r) && |r| == 9
    ensures ParseHex(r) == Success(RGBA(
        PairValue(d, 0) as real / 255.0,
        PairValue(d, 1) as real / 255.0,
        PairValue(d, 2) as real / 255.0,
        PairValue(d, 3) as real / 255.0))
  {
    HashedIsHexColor(d);
    HexDigitsOfHashed(d);
    EightDigitsRead(d, r);
  }

  lemma EightDigitsRead(d: string, r: string)
    requires |d| == 8 && AllHexDigits(d) && HexDigitsOf(r) == d
    ensures ParseHex(r) == Success(RGBA(
        PairValue(d, 0) as real / 255.0,
        PairValue(d, 1) as real / 255.0,
        PairValue(d, 2) as real / 255.0,
        PairValue(d, 3) as real / 255.0))
  {
    ParseHexEightDigits(r);
  }

  /** `#` and 3, 6 or 8 hex digits is a hex colour. */
  lemma HashedIsHexColor(d: string)
    requires (|d| == 3 || |d| == 6 || |d| == 8) && AllHexDigits(d)
    ensures IsHexColor("#" + d)
  {
    var r := "#" + d;
    assert r[|r| - 1] == d[|d| - 1];
    assert DropFinalLineTerminator(r) == r;
    assert r[1..] == d;
  }

  lemma WithAlphaPairs(rgb: string, b: nat)
    requires |rgb| == 6 && AllHexDigits(rgb) && b < 256
    ensures AllHexDigits(rgb + HexByte(b))
    ensures PairValue(rgb + HexByte(b), 0) == PairValue(rgb, 0)
    ensures PairValue(rgb + HexByte(b), 1) == PairValue(rgb, 1)
    ensures PairValue(rgb + HexByte(b), 2) == PairValue(rgb, 2)
    ensures PairValue(rgb + HexByte(b), 3) == b
  {
    var d := rgb + HexByte(b);
    AllHexDigitsAppend(rgb, HexByte(b));
    assert d[6..8] == HexByte(b);
    PairAt(d, 3, b);
    assert forall i :: 0 <= i < 6 ==> d[i] == rgb[i];
  }

  /**
   * `updateHexAlpha` producing a colour in every case: as the source does,
   * but with a three-digit shorthand expanded to six digits first.
   */
  function UpdateHexAlpha(s: string, alpha: Option<real>): (r: string)
    ensures alpha.None? || !IsHexColor(s) ==> r == s
    ensures alpha.Some? && IsHexColor(s) ==> IsHexColor(r) && |r| == 9
  {
    match alpha
    case None => s
    case Some(a) =>
      if !IsHexColor(s) then s
      else
        HexDigitsOfHexColor(s);
        var rgb := RgbDigits(HexDigitsOf(s));
        var r := "#" + rgb + HexByte(AlphaByte(a));
        WithAlphaByte(rgb, AlphaByte(a), r);
        r
  }

  /** With an alpha, a hex colour is rewritten as `#`, its colour digits and the alpha byte. */
  lemma UpdateHexAlphaSpelled(s: string, a: real)
    requires IsHexColor(s)
    ensures AllHexDigits(HexDigitsOf(s)) && (|HexDigitsOf(s)| == 3 || |HexDigitsOf(s)| == 6 || |HexDigitsOf(s)| == 8)
    ensures UpdateHexAlpha(s, Some(a)) == "#" + RgbDigits(HexDigitsOf(s)) + HexByte(AlphaByte(a))
  {
    HexDigitsOfHexColor(s);
  }

  /**
   * Outside the three-digit shorthand the source and the corrected version
   * agree, so every property of `UpdateHexAlpha` on six- and eight-digit
   * colours holds of the program as written.
   */
  lemma AsWrittenAgrees(s: string, a: real)
    requires IsHexColor(s) && |HexDigitsOf(s)| != 3
    ensures UpdateHexAlphaAsWritten(s, Some(a)) == UpdateHexAlpha(s, Some(a))
  {
    HexDigitsOfHexColor(s);
    UpdateHexAlphaSpelled(s, a);
  }

  /**
   * The rewritten colour parses as its colour digits' bytes and the alpha
   * byte; for a shorthand those digits are the spelled-out ones, whose bytes
   * `ShorthandPairs` gives.
   */
  lemma RewrittenColour(s: string, a: real, hex: string, rgb: string)
    requires IsHexColor(s) && hex == HexDigitsOf(s)
    requires AllHexDigits(hex) && (|hex| == 3 || |hex| == 6 || |hex| == 8) && rgb == RgbDigits(hex)
    ensures ParseHex(UpdateHexAlpha(s, Some(a))) == Success(RGBA(
        PairValue(rgb, 0) as real / 255.0,
        PairValue(rgb, 1) as real / 255.0,
        PairValue(rgb, 2) as real / 255.0,
        AlphaByte(a) as real / 255.0))
  {
    UpdateHexAlphaSpelled(s, a);
    WithAlphaByte(rgb, AlphaByte(a), UpdateHexAlpha(s, Some(a)));
  }

  /** The rewritten colour parses, with the requested alpha byte and the original red, green and blue. */
  lemma UpdateHexAlphaParses(s: string, a: real)
    requires IsHexColor(s) && |HexDigitsOf(s)| != 3
    ensures var r := UpdateHexAlpha(s, Some(a));
      ParseHex(r).Success? && ParseHex(s).Success? &&
      ParseHex(r).value.alpha == AlphaByte(a) as real / 255.0 &&
      ParseHex(r).value.red == ParseHex(s).value.red &&
      ParseHex(r).value.green == ParseHex(s).value.green &&
      ParseHex(r).value.blue == ParseHex(s).value.blue
  {
    var hex := HexDigitsOf(s);
    assert AllHexDigits(hex) && (|hex| == 6 || |hex| == 8) by {
      UpdateHexAlphaSpelled(s, a);
    }
    RewrittenColour(s, a, hex, RgbDigits(hex));
    OriginalColour(s, hex);
  }

  /** Six or eight digits: `parseHex` reads the same first three pairs as their first six digits. */
  lemma OriginalColour(s: string, hex: string)
    requires hex == HexDigitsOf(s) && AllHexDigits(hex) && (|hex| == 6 || |hex| == 8)
    ensures var rgb := RgbDigits(hex);
      ParseHex(s).Success? &&
      ParseHex(s).value.red == PairValue(rgb, 0) as real / 255.0 &&
      ParseHex(s).value.green == PairValue(rgb, 1) as real / 255.0 &&
      ParseHex(s).value.blue == PairValue(rgb, 2) as real / 255.0
  {
    var rgb := RgbDigits(hex);
    assert PairValue(rgb, 0) == PairValue(hex, 0) && PairValue(rgb, 1) == PairValue(hex, 1) &&
      PairValue(rgb, 2) == PairValue(hex, 2) by {
      assert forall i :: 0 <= i < 6 ==> rgb[i] == hex[i];
    }
    if |hex| == 8 {
      ParseHexEightDigits(s);
    } else {
      ParseHexSixDigits(s);
    }
  }

  /** A shorthand digit `x` stands for the byte `xx`, that is 17 times its value. */
  lemma ShorthandPairs(hex: string)
    requires |hex| == 3 && AllHexDigits(hex)
    ensures RgbDigits(hex) == ExpandShorthand(hex)
    ensures PairValue(ExpandShorthand(hex), 0) == 17 * HexDigitValue(hex[0])
    ensures PairValue(ExpandShorthand(hex), 1) == 17 * HexDigitValue(hex[1])
    ensures PairValue(ExpandShorthand(hex), 2) == 17 * HexDigitValue(hex[2])
  {
  }

  /** `"#ff0000"` with alpha 0.5 becomes `"#ff000080"` in both versions. */
  lemma UpdateHexAlphaExample(s: string)
    requires s == "#ff0000"
    ensures UpdateHexAlpha(s, Some(0.5)) == s + "80"
    ensures UpdateHexAlphaAsWritten(s, Some(0.5)) == s + "80"
  {
    var d := s[1..];
    assert s == "#" + d && |d| == 6 && AllHexDigits(d);
    AlphaByteHalf();
    AsWrittenOfDigits(d, 0.5);
    SixDigitsOfDigits(d, 0.5);
  }

  /** On `#` and six digits, both versions agree. */
  lemma SixDigitsOfDigits(d: string, a: real)
    requires |d| == 6 && AllHexDigits(d)
    ensures UpdateHexAlpha("#" + d, Some(a)) == "#" + d + HexByte(AlphaByte(a))
  {
    HashedIsHexColor(d);
    HexDigitsOfHashed(d);
    UpdateHexAlphaSpelled("#" + d, a);
  }
}
