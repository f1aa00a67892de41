/**
 * The Foundation string operations the generator relies on, restricted to
 * ASCII: case mapping, prefix tests, literal search and replacement,
 * `split(separator:)` and `trimmingCharacters(in:)`.
 */
module Strings {

  import opened Wrappers

  /** `CharacterSet.whitespaces` restricted to ASCII. */
  const Whitespaces: set<char> := {' ', '\t'}

  /** `CharacterSet.whitespacesAndNewlines` restricted to ASCII. */
  const WhitespacesAndNewlines: set<char> := {' ', '\t', '\n', '\r', '\U{000B}', '\U{000C}'}

  predicate IsDigit(c: char) { '0' <= c <= '9' }

  predicate IsHexDigit(c: char) { '0' <= c <= '9' || 'a' <= c <= 'f' || 'A' <= c <= 'F' }

  predicate AllDigits(s: string) { forall i :: 0 <= i < |s| ==> IsDigit(s[i]) }

  predicate AllHexDigits(s: string) { forall i :: 0 <= i < |s| ==> IsHexDigit(s[i]) }

  predicate IsUpper(c: char) { 'A' <= c <= 'Z' }

  predicate IsLower(c: char) { 'a' <= c <= 'z' }

  function LowerChar(c: char): char
  {
    if IsUpper(c) then (c as int + 32) as char else c
  }

  function UpperChar(c: char): char
  {
    if IsLower(c) then (c as int - 32) as char else c
  }

  /** `lowercased()`: maps every ASCII capital to its small letter. */
  function Lower(s: string): (r: string)
    ensures |r| == |s|
    ensures forall i :: 0 <= i < |s| ==> r[i] == LowerChar(s[i])
  {
    if s == [] then [] else [LowerChar(s[0])] + Lower(s[1..])
  }

  lemma {:induction false} LowerAppend(a: string, b: string)
    ensures Lower(a + b) == Lower(a) + Lower(b)
    decreases |a|
  {
    if a == [] {
      assert a + b == b;
    } else {
      assert (a + b)[0] == a[0] && (a + b)[1..] == a[1..] + b;
      LowerAppend(a[1..], b);
    }
  }

  /** Lower-casing twice is lower-casing once. */
  lemma LowerIdempotent(s: string)
    ensures Lower(Lower(s)) == Lower(s)
  {
  }

  /** `hasPrefix` / `starts(with:)`. */
  predicate StartsWith(s: string, prefix: string)
  {
    prefix <= s
  }

  /** `contains`: `w` occurs somewhere in `s` (the empty string occurs everywhere). */
  predicate Contains(s: string, w: string)
    decreases |s|
  {
    w <= s || (s != [] && Contains(s[1..], w))
  }

  /** A window of `s` that equals `w` means `s` contains `w`. */
  lemma {:induction false} ContainsAt(s: string, w: string, i: nat)
    requires i + |w| <= |s| && s[i..i + |w|] == w
    ensures Contains(s, w)
  {
    if i > 0 {
      assert s[1..][i - 1..i - 1 + |w|] == w;
      ContainsAt(s[1..], w, i - 1);
    }
  }

  /** An occurrence of `w` inside `a` is also one inside `p + a + q`. */
  lemma {:induction false} ContainsInfix(p: string, a: string, q: string, w: string)
    requires Contains(a, w)
    ensures Contains(p + a + q, w)
    decreases |p| + |a|
  {
    if p != [] {
      assert (p + a + q)[1..] == p[1..] + a + q;
      ContainsInfix(p[1..], a, q, w);
    } else if w <= a {
      assert (p + a + q)[..|w|] == w;
    } else {
      assert a != [];
      assert (a + q)[1..] == a[1..] + q;
      ContainsInfix([], a[1..], q, w);
      assert [] + a[1..] + q == (p + a + q)[1..];
    }
  }

  /**
   * `replacingOccurrences(of: pat, with: rep)`: a single left-to-right pass
   * that replaces non-overlapping occurrences; an empty `pat` changes nothing.
   */
  function ReplaceAll(s: string, pat: string, rep: string): string
    decreases |s|
  {
    if pat == [] || |s| < |pat| then s
    else if s[..|pat|] == pat then rep + ReplaceAll(s[|pat|..], pat, rep)
    else [s[0]] + ReplaceAll(s[1..], pat, rep)
  }

  /** `replacingOccurrences(of: pat, with: "")`. */
  function RemoveAll(s: string, pat: string): string
  {
    ReplaceAll(s, pat, "")
  }

  /** Without an occurrence of `pat`, replacement changes nothing. */
  lemma {:induction false} ReplaceAllNoMatch(s: string, pat: string, rep: string)
    requires !Contains(s, pat)
    ensures ReplaceAll(s, pat, rep) == s
    decreases |s|
  {
    if pat != [] && |s| >= |pat| {
      assert s[..|pat|] != pat;
      ReplaceAllNoMatch(s[1..], pat, rep);
    }
  }

  /** Replacing a one-character pattern by a different character leaves none of it. */
  lemma {:induction false} ReplaceCharRemovesIt(s: string, c: char, d: char)
    requires c != d
    ensures c !in ReplaceAll(s, [c], [d])
    ensures |ReplaceAll(s, [c], [d])| == |s|
    decreases |s|
  {
    if |s| >= 1 {
      ReplaceCharRemovesIt(s[1..], c, d);
    }
  }

  /** Removing one character keeps every other character and adds none. */
  lemma {:induction false} RemoveCharKeepsOthers(s: string, c: char, x: char)
    requires x != c
    ensures x in RemoveAll(s, [c]) <==> x in s
    decreases |s|
  {
    if |s| >= 1 {
      RemoveCharKeepsOthers(s[1..], c, x);
      assert s == [s[0]] + s[1..];
    }
  }

  /**
   * `replacingOccurrences(of: pat, with: rep, options: .caseInsensitive)`:
   * as `ReplaceAll`, comparing under `Lower`.
   */
  function ReplaceAllIgnoringCase(s: string, pat: string, rep: string): (r: string)
    ensures rep == [] ==> |r| <= |s|
    decreases |s|
  {
    if pat == [] || |s| < |pat| then s
    else if Lower(s[..|pat|]) == Lower(pat) then rep + ReplaceAllIgnoringCase(s[|pat|..], pat, rep)
    else [s[0]] + ReplaceAllIgnoringCase(s[1..], pat, rep)
  }

  /** The regular-expression replacement of a character class by "": drops every character in `cs`. */
  function RemoveChars(s: string, cs: set<char>): (r: string)
    ensures forall i :: 0 <= i < |r| ==> r[i] !in cs
    ensures forall c :: c !in cs ==> (c in r <==> c in s)
  {
    if s == [] then []
    else if s[0] in cs then RemoveChars(s[1..], cs)
    else [s[0]] + RemoveChars(s[1..], cs)
  }

  /** `w` occurs in `s` starting at index `j`. */
  predicate OccursAt(s: string, w: string, j: nat)
  {
    j + |w| <= |s| && s[j..j + |w|] == w
  }

  /** The first occurrence of `w` in `s`, as a start index (`range(of:)`). */
  function IndexOf(s: string, w: string): (r: Option<nat>)
    ensures r.Some? ==> OccursAt(s, w, r.value)
    ensures r.Some? ==> forall j: nat :: j < r.value ==> !OccursAt(s, w, j)
    ensures r.None? ==> forall j: nat :: !OccursAt(s, w, j)
    decreases |s|
  {
    if |s| < |w| then None
    else if s[..|w|] == w then Some(0)
    else
      var rest := IndexOf(s[1..], w);
      assert forall j: nat :: 1 <= j ==> (OccursAt(s, w, j) <==> OccursAt(s[1..], w, j - 1)) by {
        forall j: nat | 1 <= j ensures OccursAt(s, w, j) <==> OccursAt(s[1..], w, j - 1) {
          if j + |w| <= |s| {
            var here, there := s[j..j + |w|], s[1..][j - 1..j - 1 + |w|];
            assert forall t :: 0 <= t < |w| ==> here[t] == there[t];
            assert here == there;
          }
        }
      }
      match rest
      case None => None
      case Some(i) => Some(i + 1)
  }

  /** The leading run of `s` before the first `sep`. */
  function Word(s: string, sep: char): (w: string)
    ensures w <= s && sep !in w
    ensures |w| < |s| ==> s[|w|] == sep
    decreases |s|
  {
    if s == [] || s[0] == sep then [] else [s[0]] + Word(s[1..], sep)
  }

  /** `split(separator:)` with its default of omitting empty pieces. */
  function Split(s: string, sep: char): (r: seq<string>)
    ensures forall i :: 0 <= i < |r| ==> r[i] != [] && sep !in r[i]
    ensures forall i :: 0 <= i < |r| ==> forall c :: c in r[i] ==> c in s
    decreases |s|
  {
    if s == [] then []
    else if s[0] == sep then Split(s[1..], sep)
    else var w := Word(s, sep); [w] + Split(s[|w|..], sep)
  }

  /** A separator-free, non-empty piece ahead of a separator is split off whole. */
  lemma {:induction false} SplitFirstPiece(a: string, sep: char, b: string)
    requires a != [] && sep !in a
    ensures Split(a + [sep] + b, sep) == [a] + Split(b, sep)
  {
    var s := a + [sep] + b;
    WordOfPiece(a, sep, [sep] + b);
    assert s == a + ([sep] + b);
    assert s[|a|..] == [sep] + b;
    assert ([sep] + b)[1..] == b;
  }

  /** A separator-free string with no trailing context splits into itself. */
  lemma {:induction false} SplitSinglePiece(a: string, sep: char)
    requires a != [] && sep !in a
    ensures Split(a, sep) == [a]
  {
    WordOfPiece(a, sep, []);
    assert a + [] == a;
  }

  lemma {:induction false} WordOfPiece(a: string, sep: char, rest: string)
    requires sep !in a
    requires rest == [] || rest[0] == sep
    ensures Word(a + rest, sep) == a
    decreases |a|
  {
    if a != [] {
      assert (a + rest)[1..] == a[1..] + rest;
      WordOfPiece(a[1..], sep, rest);
    }
  }

  function TrimStart(s: string, ws: set<char>): (r: string)
    ensures |r| <= |s|
    ensures r == [] || r[0] !in ws
    decreases |s|
  {
    if s != [] && s[0] in ws then TrimStart(s[1..], ws) else s
  }

  /** Trimming the start leaves a suffix. */
  lemma {:induction false} TrimStartSuffix(s: string, ws: set<char>)
    ensures TrimStart(s, ws) == s[|s| - |TrimStart(s, ws)|..]
    decreases |s|
  {
    if s != [] && s[0] in ws {
      TrimStartSuffix(s[1..], ws);
    }
  }

  function TrimEnd(s: string, ws: set<char>): (r: string)
    ensures |r| <= |s|
    ensures r == [] || r[|r| - 1] !in ws
    decreases |s|
  {
    if s != [] && s[|s| - 1] in ws then TrimEnd(s[..|s| - 1], ws) else s
  }

  /** Trimming the end leaves a prefix. */
  lemma {:induction false} TrimEndPrefix(s: string, ws: set<char>)
    ensures TrimEnd(s, ws) == s[..|TrimEnd(s, ws)|]
    decreases |s|
  {
    if s != [] && s[|s| - 1] in ws {
      TrimEndPrefix(s[..|s| - 1], ws);
    }
  }

  /** `trimmingCharacters(in:)`: drops leading and trailing characters of `ws`. */
  function Trim(s: string, ws: set<char>): (r: string)
    ensures r == [] || (r[0] !in ws && r[|r| - 1] !in ws)
  {
    var t := TrimStart(s, ws);
    TrimEndPrefix(t, ws);
    TrimEnd(t, ws)
  }

  /** A string that neither starts nor ends with a character of `ws` is its own trim. */
  lemma TrimUntrimmed(s: string, ws: set<char>)
    requires s == [] || (s[0] !in ws && s[|s| - 1] !in ws)
    ensures Trim(s, ws) == s
  {
    assert TrimStart(s, ws) == s;
    assert TrimEnd(s, ws) == s;
  }
  /** What the trimmed text contains, the text contains. */
  lemma ContainsOfTrim(s: string, ws: set<char>, w: string)
    requires Contains(Trim(s, ws), w)
    ensures Contains(s, w)
  {
    var t := TrimStart(s, ws);
    TrimStartSuffix(s, ws);
    TrimEndPrefix(t, ws);
    var u := TrimEnd(t, ws);
    var p, q := s[..|s| - |t|], t[|u|..];
    assert s == p + u + q;
    ContainsInfix(p, u, q, w);
  }

  /** What a piece of a split contains, the split text contains. */
  lemma {:induction false} ContainsOfSplit(s: string, sep: char, i: nat, w: string)
    requires i < |Split(s, sep)| && Contains(Split(s, sep)[i], w)
    ensures Contains(s, w)
    decreases |s|
  {
    if s[0] == sep {
      ContainsOfSplit(s[1..], sep, i, w);
      assert s == [s[0]] + s[1..] + [];
      ContainsInfix([s[0]], s[1..], [], w);
    } else {
      var word := Word(s, sep);
      var rest := s[|word|..];
      assert word != [] by {
        assert |word| < |s| ==> s[|word|] == sep;
      }
      assert Split(s, sep) == [word] + Split(rest, sep);
      if i == 0 {
        assert s == [] + word + rest;
        ContainsInfix([], word, rest, w);
      } else {
        ContainsOfSplit(rest, sep, i - 1, w);
        assert s == word + rest + [];
        ContainsInfix(word, rest, [], w);
      }
    }
  }


  /** A character of an occurring pattern is a character of the text. */
  lemma {:induction false} ContainsChar(s: string, w: string, c: char)
    requires Contains(s, w) && c in w
    ensures c in s
    decreases |s|
  {
    if w <= s {
      var k :| 0 <= k < |w| && w[k] == c;
      assert s[k] == c;
    } else {
      ContainsChar(s[1..], w, c);
    }
  }

  /** Removing a character that occurs only at the very end drops just that one. */
  lemma {:induction false} RemoveCharTrailing(x: string, c: char)
    requires c !in x
    ensures RemoveAll(x + [c], [c]) == x
    decreases |x|
  {
    var t := x + [c];
    if x == [] {
      assert t == [c] && t[..1] == [c] && t[1..] == [];
      assert ReplaceAll(t, [c], "") == "" + ReplaceAll([], [c], "");
    } else {
      assert t[0] == x[0] && x[0] != c;
      assert t[..1] != [c];
      assert t[1..] == x[1..] + [c];
      RemoveCharTrailing(x[1..], c);
    }
  }

  /** The last piece of `x + [sep] + b` is `b` when `b` is a non-empty, separator-free run. */
  lemma {:induction false} SplitLastPiece(x: string, sep: char, b: string)
    requires b != [] && sep !in b
    ensures var r := Split(x + [sep] + b, sep); r != [] && r[|r| - 1] == b
    decreases |x|
  {
    var s := x + [sep] + b;
    if x == [] {
      assert s[1..] == b;
      SplitSinglePiece(b, sep);
    } else if x[0] == sep {
      assert s[1..] == x[1..] + [sep] + b;
      SplitLastPiece(x[1..], sep, b);
    } else {
      var w := Word(s, sep);
      assert s[|x|] == sep;
      assert |w| <= |x|;
      assert s[|w|..] == x[|w|..] + [sep] + b;
      SplitLastPiece(x[|w|..], sep, b);
    }
  }

  /** Trailing characters of `ws` after a non-`ws` end are exactly what `TrimEnd` drops. */
  lemma {:induction false} TrimEndSuffix(b: string, t: string, ws: set<char>)
    requires b != [] && b[|b| - 1] !in ws
    requires forall i :: 0 <= i < |t| ==> t[i] in ws
    ensures TrimEnd(b + t, ws) == b
    decreases |t|
  {
    if t == [] {
      assert b + t == b;
    } else {
      assert (b + t)[..|b + t| - 1] == b + t[..|t| - 1];
      TrimEndSuffix(b, t[..|t| - 1], ws);
    }
  }

  /** The concatenation of a sequence of strings (`joined()`). */
  function Join(pieces: seq<string>): string
  {
    if pieces == [] then [] else pieces[0] + Join(pieces[1..])
  }

  /** Dropping a character from a separator-free head leaves the head alone. */
  lemma {:induction false} RemoveCharsCleanHead(w: string, rest: string, cs: set<char>)
    requires forall i :: 0 <= i < |w| ==> w[i] !in cs
    ensures RemoveChars(w + rest, cs) == w + RemoveChars(rest, cs)
    decreases |w|
  {
    if w != [] {
      var t := w + rest;
      assert t[0] == w[0] && w[0] !in cs;
      assert t[1..] == w[1..] + rest;
      RemoveCharsCleanHead(w[1..], rest, cs);
      calc {
        RemoveChars(t, cs);
        [w[0]] + RemoveChars(w[1..] + rest, cs);
        [w[0]] + (w[1..] + RemoveChars(rest, cs));
        { HeadThenTail(w, RemoveChars(rest, cs)); }
        w + RemoveChars(rest, cs);
      }
    } else {
      assert w + rest == rest;
    }
  }

  lemma HeadThenTail(w: string, x: string)
    requires w != []
    ensures [w[0]] + (w[1..] + x) == w + x
  {
    assert [w[0]] + w[1..] == w;
  }

  /** Splitting and joining again deletes exactly the separators. */
  lemma {:induction false} JoinSplit(s: string, sep: char)
    ensures Join(Split(s, sep)) == RemoveChars(s, {sep})
    decreases |s|
  {
    if s != [] && s[0] != sep {
      var w := Word(s, sep);
      assert s == w + s[|w|..];
      RemoveCharsCleanHead(w, s[|w|..], {sep});
      JoinSplit(s[|w|..], sep);
      assert Split(s, sep)[1..] == Split(s[|w|..], sep);
    } else if s != [] {
      JoinSplit(s[1..], sep);
    }
  }

  lemma {:induction false} LowerOfJoin(a: string, b: string)
    ensures Lower(a + b) == Lower(a) + Lower(b)
  {
    LowerAppend(a, b);
  }

  /** A character that is not a letter appears in `Lower(s)` exactly where it appears in `s`. */
  lemma NonLetterInLower(s: string, c: char)
    requires !IsUpper(c) && !IsLower(c)
    ensures c in Lower(s) <==> c in s
  {
    if c in Lower(s) {
      var i :| 0 <= i < |s| && Lower(s)[i] == c;
      assert s[i] == c;
    }
    if c in s {
      var i :| 0 <= i < |s| && s[i] == c;
      assert Lower(s)[i] == c;
    }
  }

  /** Replacing a character: the run before its first occurrence is kept, the occurrence replaced. */
  lemma {:induction false} ReplaceCharSplit(a: string, c: char, b: string, rep: string)
    requires c !in a
    ensures ReplaceAll(a + [c] + b, [c], rep) == a + rep + ReplaceAll(b, [c], rep)
    decreases |a|
  {
    var s := a + [c] + b;
    if a == [] {
      assert s[..1] == [c] && s[1..] == b;
    } else {
      assert s[0] == a[0] && a[0] != c;
      assert s[..1] != [c];
      assert s[1..] == a[1..] + [c] + b;
      ReplaceCharSplit(a[1..], c, b, rep);
    }
  }

  /** Replacing a character that does not occur changes nothing. */
  lemma ReplaceAbsentChar(s: string, c: char, rep: string)
    requires c !in s
    ensures ReplaceAll(s, [c], rep) == s
  {
    if Contains(s, [c]) {
      ContainsChar(s, [c], c);
    }
    ReplaceAllNoMatch(s, [c], rep);
  }

  /** The first occurrence, pinned down: one at `j` and none before it. */
  lemma IndexOfIs(s: string, w: string, j: nat)
    requires OccursAt(s, w, j)
    requires forall i: nat :: i < j ==> !OccursAt(s, w, i)
    ensures IndexOf(s, w) == Some(j)
  {
    var r := IndexOf(s, w);
    assert r.Some?;
    assert !(r.value < j);
    assert !(j < r.value);
  }

  /** An occurrence in a suffix is an occurrence in the whole text, shifted. */
  lemma OccursInSuffix(s: string, w: string, k: nat, j: nat)
    requires k <= |s|
    ensures OccursAt(s[k..], w, j) <==> OccursAt(s, w, k + j)
  {
    if j + |w| <= |s| - k {
      assert s[k..][j..j + |w|] == s[k + j..k + j + |w|];
    }
  }

  /** Searching from `k` on finds the first occurrence, if it does not start before `k`. */
  lemma IndexOfSuffix(s: string, w: string, k: nat)
    requires k <= |s|
    requires IndexOf(s, w).Some? ==> k <= IndexOf(s, w).value
    ensures IndexOf(s, w).None? ==> IndexOf(s[k..], w).None?
    ensures IndexOf(s, w).Some? ==> IndexOf(s[k..], w) == Some(IndexOf(s, w).value - k)
  {
    forall j: nat ensures OccursAt(s[k..], w, j) <==> OccursAt(s, w, k + j) {
      OccursInSuffix(s, w, k, j);
    }
    if IndexOf(s, w).Some? {
      IndexOfIs(s[k..], w, IndexOf(s, w).value - k);
    }
  }

  /** A leading pattern that occurs nowhere after it is the only thing removed. */
  lemma RemoveLeadingOnly(p: string, x: string)
    requires p != [] && !Contains(x, p)
    ensures RemoveAll(p + x, p) == x
  {
    var s := p + x;
    assert s[..|p|] == p && s[|p|..] == x;
    ReplaceAllNoMatch(x, p, "");
  }
}
