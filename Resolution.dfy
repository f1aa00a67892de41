/**
 * Following `{Colors.…}` references through the flat map of core colours:
 * `resolveColorInfo` and `resolveNestedFlatColorData`.
 *
 * The source recurses with no cycle guard, so a chain that comes back on
 * itself never returns. The model follows the chain for at most `|m|`
 * hops and answers `None` when the chain is still going: the lemmas below
 * show that this happens exactly when the chain is infinite, so `None`
 * stands for the generator not returning, and `Some` is the value the
 * unbounded recursion returns.
 */
module Resolution {

  import opened Wrappers
  import opened Strings
  import opened Model
  import opened Extensions

  /** The flat map: lower-cased dotted paths to colour tokens. */
  type FlatMap = map<string, ColorInfo>

  /** A value `resolveColorInfo` tries to follow: no colour of its own, and spelled `{Colors.…`. */
  predicate IsReference(c: ColorInfo)
  {
    c.Rgba() == None && StartsWith(c.value, ReferenceOpen)
  }

  /** The key a reference names: every `{Colors.` and every `}` removed, then lower-cased. */
  function ReferenceKey(c: ColorInfo): string
  {
    Lower(RemoveAll(RemoveAll(c.value, ReferenceOpen), "}"))
  }

  /**
   * How a value points at another entry: whether it is followed at all, and
   * the key it names. The chain lemmas below hold for any such pair; the
   * generator's is `SourceLinks`.
   */
  datatype Links = Links(follows: ColorInfo -> bool, key: ColorInfo -> string)

  const SourceLinks: Links := Links(IsReference, ReferenceKey)

  /** One step of `resolveColorInfo`: the entry the value refers to, if it refers to one. */
  function Hop(l: Links, c: ColorInfo, m: FlatMap): (r: Option<ColorInfo>)
    ensures r.Some? <==> l.follows(c) && l.key(c) in m
    ensures r.Some? ==> r.value == m[l.key(c)]
  {
    if l.follows(c) && l.key(c) in m then Some(m[l.key(c)]) else None
  }

  /** The value reached after `n` hops from `c`, or `None` when the chain stops earlier. */
  function Chain(l: Links, c: ColorInfo, m: FlatMap, n: nat): Option<ColorInfo>
  {
    if n == 0 then Some(c)
    else match Chain(l, c, m, n - 1)
      case None => None
      case Some(d) => Hop(l, d, m)
  }

  /** `resolveColorInfo` allowed at most `fuel` recursive calls; `None` when they run out. */
  function ResolveWithFuel(l: Links, c: ColorInfo, m: FlatMap, fuel: nat): Option<ColorInfo>
    decreases fuel
  {
    match Hop(l, c, m)
    case None => Some(c)
    case Some(d) => if fuel == 0 then None else ResolveWithFuel(l, d, m, fuel - 1)
  }

  /** Resolution with fuel for one hop per key. */
  function Resolve(l: Links, c: ColorInfo, m: FlatMap): Option<ColorInfo>
  {
    ResolveWithFuel(l, c, m, |m|)
  }

  /** `resolveColorInfo(for: c, from: m)`: `None` where the source recurses for ever. */
  function ResolveColorInfo(c: ColorInfo, m: FlatMap): Option<ColorInfo>
  {
    Resolve(SourceLinks, c, m)
  }

  /** `y` lies on the reference chain that starts at `x`. */
  ghost predicate Reaches(l: Links, m: FlatMap, x: ColorInfo, y: ColorInfo)
  {
    exists t: nat :: Chain(l, x, m, t) == Some(y)
  }

  // ---------------------------------------------------------------------
  // Chains

  /** A chain of `n + 1` hops is a first hop and then `n` more. */
  lemma {:induction false} ChainFront(l: Links, c: ColorInfo, m: FlatMap, n: nat)
    ensures Chain(l, c, m, n + 1) == match Hop(l, c, m) case None => None case Some(d) => Chain(l, d, m, n)
  {
    if n > 0 {
      ChainFront(l, c, m, n - 1);
    }
  }

  /** A chain that goes on for `n` hops goes on for every shorter count. */
  lemma {:induction false} ChainPrefix(l: Links, c: ColorInfo, m: FlatMap, i: nat, n: nat)
    requires i <= n && Chain(l, c, m, n).Some?
    ensures Chain(l, c, m, i).Some?
    decreases n
  {
    if i < n {
      ChainPrefix(l, c, m, i, n - 1);
    }
  }

  /** `a + b` hops: `a` hops, then `b` more from where they end. */
  lemma {:induction false} ChainCompose(l: Links, c: ColorInfo, m: FlatMap, a: nat, b: nat)
    ensures Chain(l, c, m, a + b) == match Chain(l, c, m, a) case None => None case Some(d) => Chain(l, d, m, b)
  {
    if b > 0 {
      ChainCompose(l, c, m, a, b - 1);
    }
  }

  /** `a + b` hops from `c`, where `a` hops reach `d`: `b` hops from `d`. */
  lemma ChainThrough(l: Links, c: ColorInfo, m: FlatMap, a: nat, b: nat, n: nat, d: ColorInfo)
    requires n == a + b && Chain(l, c, m, a) == Some(d)
    ensures Chain(l, c, m, n) == Chain(l, d, m, b)
  {
    ChainCompose(l, c, m, a, b);
  }

  /** One more hop from where `k` hops end. */
  lemma ChainStep(l: Links, c: ColorInfo, m: FlatMap, k: nat, n: nat, d: ColorInfo)
    requires n == k + 1 && Chain(l, c, m, k) == Some(d)
    ensures Chain(l, c, m, n) == Hop(l, d, m)
  {
  }

  /** After the chain stops it stays stopped. */
  lemma {:induction false} ChainStopped(l: Links, c: ColorInfo, m: FlatMap, t: nat, r: ColorInfo, n: nat)
    requires Chain(l, c, m, t) == Some(r) && Hop(l, r, m).None? && n > t
    ensures Chain(l, c, m, n).None?
    decreases n
  {
    if n > t + 1 {
      ChainStopped(l, c, m, t, r, n - 1);
    }
  }

  // ---------------------------------------------------------------------
  // Fuel

  /** The fuel runs out exactly when the chain is still going one hop after it. */
  lemma {:induction false} FuelRunsOut(l: Links, c: ColorInfo, m: FlatMap, f: nat)
    ensures ResolveWithFuel(l, c, m, f).None? <==> Chain(l, c, m, f + 1).Some?
    decreases f
  {
    ChainFront(l, c, m, f);
    if Hop(l, c, m).Some? && f > 0 {
      FuelRunsOut(l, Hop(l, c, m).value, m, f - 1);
    }
  }

  /** A result within the fuel is a value on the chain with nothing further to follow. */
  lemma {:induction false} FuelResult(l: Links, c: ColorInfo, m: FlatMap, f: nat, r: ColorInfo) returns (t: nat)
    requires ResolveWithFuel(l, c, m, f) == Some(r)
    ensures t <= f && Chain(l, c, m, t) == Some(r) && Hop(l, r, m).None?
    decreases f
  {
    match Hop(l, c, m)
    case None =>
      t := 0;
    case Some(d) =>
      var s := FuelResult(l, d, m, f - 1, r);
      ChainFront(l, c, m, s);
      t := s + 1;
  }

  /** A chain that stops within the fuel is followed to its end. */
  lemma {:induction false} FuelReaches(l: Links, c: ColorInfo, m: FlatMap, f: nat, t: nat, r: ColorInfo)
    requires t <= f && Chain(l, c, m, t) == Some(r) && Hop(l, r, m).None?
    ensures ResolveWithFuel(l, c, m, f) == Some(r)
    decreases t
  {
    if t > 0 {
      ChainFront(l, c, m, t - 1);
      FuelReaches(l, Hop(l, c, m).value, m, f - 1, t - 1, r);
    }
  }

  // ---------------------------------------------------------------------
  // Cycles

  /** A sequence longer than the set its elements come from repeats an element. */
  lemma {:induction false} Pigeonhole(s: seq<string>, keys: set<string>) returns (i: nat, j: nat)
    requires forall k :: 0 <= k < |s| ==> s[k] in keys
    requires |s| > |keys|
    ensures i < j < |s| && s[i] == s[j]
    decreases |s|
  {
    var last := s[|s| - 1];
    var front := s[..|s| - 1];
    if k :| 0 <= k < |front| && front[k] == last {
      i, j := k, |s| - 1;
    } else {
      assert forall k :: 0 <= k < |front| ==> front[k] in keys - {last};
      i, j := Pigeonhole(front, keys - {last});
    }
  }

  /** The keys followed by the first `n` hops of a chain. */
  ghost function KeysAlong(l: Links, c: ColorInfo, m: FlatMap, n: nat): (s: seq<string>)
    requires Chain(l, c, m, n).Some?
    ensures |s| == n
    ensures forall t :: 0 <= t < n ==> s[t] in m && Chain(l, c, m, t + 1) == Some(m[s[t]])
  {
    if n == 0 then []
    else
      ChainPrefix(l, c, m, n - 1, n);
      KeysAlong(l, c, m, n - 1) + [l.key(Chain(l, c, m, n - 1).value)]
  }

  /** A chain that comes back to a value it has passed goes on for ever. */
  lemma {:induction false} CycleIsEndless(l: Links, c: ColorInfo, m: FlatMap, i: nat, j: nat, n: nat)
    requires i < j && Chain(l, c, m, i).Some? && Chain(l, c, m, i) == Chain(l, c, m, j)
    ensures Chain(l, c, m, n).Some?
    decreases n
  {
    if n <= j {
      ChainPrefix(l, c, m, n, j);
    } else {
      ChainCompose(l, c, m, j, n - j);
      ChainCompose(l, c, m, i, n - j);
      CycleIsEndless(l, c, m, i, j, i + n - j);
    }
  }

  /** A chain of more hops than there are keys has followed some key twice, so it is endless. */
  lemma {:induction false} LongChainIsEndless(l: Links, c: ColorInfo, m: FlatMap, n: nat)
    requires Chain(l, c, m, |m| + 1).Some?
    ensures Chain(l, c, m, n).Some?
  {
    var s := KeysAlong(l, c, m, |m| + 1);
    assert |m.Keys| == |m|;
    var i, j := Pigeonhole(s, m.Keys);
    CycleIsEndless(l, c, m, i + 1, j + 1, n);
  }

  // ---------------------------------------------------------------------
  // What `resolveColorInfo` returns

  /** The fuel-bounded resolution gives up exactly on the chains that never end. */
  lemma ResolveNoneIffEndless(l: Links, c: ColorInfo, m: FlatMap)
    ensures Resolve(l, c, m).None? <==> forall n: nat :: Chain(l, c, m, n).Some?
  {
    FuelRunsOut(l, c, m, |m|);
    if Resolve(l, c, m).None? {
      forall n: nat ensures Chain(l, c, m, n).Some? {
        LongChainIsEndless(l, c, m, n);
      }
    }
  }

  /** The resolved value is the end of the chain: reached by some number of hops, with nothing further to follow. */
  lemma ResolveSomeIffEnd(l: Links, c: ColorInfo, m: FlatMap, r: ColorInfo)
    ensures Resolve(l, c, m) == Some(r) <==> Hop(l, r, m).None? && Reaches(l, m, c, r)
  {
    if Resolve(l, c, m) == Some(r) {
      var t := FuelResult(l, c, m, |m|, r);
    }
    if Hop(l, r, m).None? && Reaches(l, m, c, r) {
      var t: nat :| Chain(l, c, m, t) == Some(r);
      if t > |m| {
        ChainPrefix(l, c, m, |m| + 1, t);
        LongChainIsEndless(l, c, m, t + 1);
        assert false;
      }
      FuelReaches(l, c, m, |m|, t, r);
    }
  }

  /** A value with nothing to follow (no reference, a colour, or a missing key) is left as it is. */
  lemma ResolveLeavesNonReference(l: Links, c: ColorInfo, m: FlatMap)
    requires Hop(l, c, m).None?
    ensures Resolve(l, c, m) == Some(c)
  {
  }

  /** The recursion of `resolveColorInfo`: a reference resolves as the entry it names. */
  lemma ResolveFollowsReference(l: Links, c: ColorInfo, m: FlatMap)
    requires Hop(l, c, m).Some?
    ensures Resolve(l, c, m) == Resolve(l, Hop(l, c, m).value, m)
  {
    ChainAgrees(l, c, m, 1, Hop(l, c, m).value);
  }

  /** Every value along a chain resolves to the same outcome as its start. */
  lemma ChainAgrees(l: Links, x: ColorInfo, m: FlatMap, t: nat, y: ColorInfo)
    requires Chain(l, x, m, t) == Some(y)
    ensures Resolve(l, y, m) == Resolve(l, x, m)
  {
    ResolveNoneIffEndless(l, x, m);
    ResolveNoneIffEndless(l, y, m);
    match Resolve(l, x, m)
    case None =>
      forall n: nat ensures Chain(l, y, m, n).Some? {
        ChainCompose(l, x, m, t, n);
      }
    case Some(r) =>
      ResolveSomeIffEnd(l, x, m, r);
      var s: nat :| Chain(l, x, m, s) == Some(r);
      if s < t {
        ChainStopped(l, x, m, s, r, t);
      }
      ChainCompose(l, x, m, t, s - t);
      assert Chain(l, y, m, s - t) == Some(r);
      ResolveSomeIffEnd(l, y, m, r);
  }

  /** The resolved value, when there is one, has nothing further to follow. */
  lemma ResolvedIsFinal(l: Links, c: ColorInfo, m: FlatMap)
    requires Resolve(l, c, m).Some?
    ensures Hop(l, Resolve(l, c, m).value, m).None?
    ensures Resolve(l, Resolve(l, c, m).value, m) == Resolve(l, c, m)
  {
    ResolveSomeIffEnd(l, c, m, Resolve(l, c, m).value);
  }

  // ---------------------------------------------------------------------
  // Maps whose entries have been partly resolved

  /** `u` has the keys of `m`, and each of its entries lies on the chain of the entry of `m`. */
  ghost predicate Shortcut(l: Links, u: FlatMap, m: FlatMap)
  {
    u.Keys == m.Keys && forall k :: k in m ==> Reaches(l, m, m[k], u[k])
  }

  /** A hop in a shortcut map is one or more hops in the original. */
  lemma ShortcutHop(l: Links, u: FlatMap, m: FlatMap, c: ColorInfo) returns (s: nat)
    requires Shortcut(l, u, m)
    ensures Hop(l, c, u).None? <==> Hop(l, c, m).None?
    ensures Hop(l, c, u).Some? ==> s >= 1 && Chain(l, c, m, s) == Hop(l, c, u)
  {
    s := 0;
    if Hop(l, c, u).Some? {
      var k := l.key(c);
      var t: nat :| Chain(l, m[k], m, t) == Some(u[k]);
      ChainFront(l, c, m, t);
      s := t + 1;
    }
  }

  /** `n` hops in a shortcut map are at least `n` hops in the original. */
  lemma {:induction false} ShortcutChain(l: Links, u: FlatMap, m: FlatMap, c: ColorInfo, n: nat) returns (t: nat)
    requires Shortcut(l, u, m) && Chain(l, c, u, n).Some?
    ensures t >= n && Chain(l, c, m, t) == Chain(l, c, u, n)
  {
    if n == 0 {
      t := 0;
    } else {
      var k := n - 1;
      ChainPrefix(l, c, u, k, n);
      var t0 := ShortcutChain(l, u, m, c, k);
      var x := Chain(l, c, u, k).value;
      ChainStep(l, c, u, k, n, x);
      var s := ShortcutHop(l, u, m, x);
      t := t0 + s;
      ChainThrough(l, c, m, t0, s, t, x);
    }
  }

  /** Resolving in a shortcut map gives what resolving in the original gives. */
  lemma ShortcutResolve(l: Links, u: FlatMap, m: FlatMap, c: ColorInfo)
    requires Shortcut(l, u, m)
    ensures Resolve(l, c, u) == Resolve(l, c, m)
  {
    ResolveNoneIffEndless(l, c, u);
    ResolveNoneIffEndless(l, c, m);
    match Resolve(l, c, u)
    case None =>
      forall n: nat ensures Chain(l, c, m, n).Some? {
        var t := ShortcutChain(l, u, m, c, n);
        ChainPrefix(l, c, m, n, t);
      }
    case Some(r) =>
      ResolveSomeIffEnd(l, c, u, r);
      var n: nat :| Chain(l, c, u, n) == Some(r);
      var t := ShortcutChain(l, u, m, c, n);
      var s := ShortcutHop(l, u, m, r);
      ResolveSomeIffEnd(l, c, m, r);
  }

  /** A map is a shortcut of itself. */
  lemma ShortcutOfSelf(l: Links, m: FlatMap)
    ensures Shortcut(l, m, m)
  {
    forall k | k in m ensures Reaches(l, m, m[k], m[k]) {
      assert Chain(l, m[k], m, 0) == Some(m[k]);
    }
  }

  // ---------------------------------------------------------------------
  // Sub-maps

  /** Every entry of `sub` is an entry of `m`. */
  predicate IsSubmap(sub: FlatMap, m: FlatMap)
  {
    forall k :: k in sub ==> k in m && m[k] == sub[k]
  }

  /** A chain in a sub-map is the same chain in the whole map. */
  lemma {:induction false} SubmapChain(l: Links, sub: FlatMap, m: FlatMap, c: ColorInfo, n: nat)
    requires IsSubmap(sub, m) && Chain(l, c, sub, n).Some?
    ensures Chain(l, c, m, n) == Chain(l, c, sub, n)
  {
    if n > 0 {
      ChainPrefix(l, c, sub, n - 1, n);
      SubmapChain(l, sub, m, c, n - 1);
    }
  }

  /** Endless in a sub-map is endless in the whole map; a result in a sub-map is on the whole map's chain. */
  lemma SubmapResolve(l: Links, sub: FlatMap, m: FlatMap, c: ColorInfo)
    requires IsSubmap(sub, m)
    ensures Resolve(l, c, sub).None? ==> Resolve(l, c, m).None?
    ensures Resolve(l, c, sub).Some? ==> Reaches(l, m, c, Resolve(l, c, sub).value)
  {
    ResolveNoneIffEndless(l, c, sub);
    ResolveNoneIffEndless(l, c, m);
    match Resolve(l, c, sub)
    case None =>
      forall n: nat ensures Chain(l, c, m, n).Some? {
        SubmapChain(l, sub, m, c, n);
      }
    case Some(r) =>
      ResolveSomeIffEnd(l, c, sub, r);
      var n: nat :| Chain(l, c, sub, n) == Some(r);
      SubmapChain(l, sub, m, c, n);
  }

  // ---------------------------------------------------------------------
  // `resolveNestedFlatColorData`

  /** Every entry of `r` is the resolution of the entry of `m` under the same key. */
  ghost predicate FullyResolved(l: Links, r: FlatMap, m: FlatMap)
  {
    r.Keys == m.Keys && forall k :: k in m ==> Some(r[k]) == Resolve(l, m[k], m)
  }

  /**
   * `resolveNestedFlatColorData`: each entry, visited in any order, is
   * resolved against the map as updated so far. `None` when some entry's
   * chain never ends, where the source does not return.
   */
  method ResolveNestedFlatColorData(m: FlatMap) returns (r: Option<FlatMap>)
    ensures r.Some? <==> forall k :: k in m ==> ResolveColorInfo(m[k], m).Some?
    ensures r.Some? ==> FullyResolved(SourceLinks, r.value, m)
  {
    var updated := m;
    var todo := m.Keys;
    ShortcutOfSelf(SourceLinks, m);
    while todo != {}
      invariant todo <= m.Keys
      invariant Shortcut(SourceLinks, updated, m)
      invariant forall k :: k in m && k !in todo ==> Some(updated[k]) == ResolveColorInfo(m[k], m)
      decreases |todo|
    {
      var key :| key in todo;
      var resolved := ResolveColorInfo(m[key], updated);
      ShortcutResolve(SourceLinks, updated, m, m[key]);
      if resolved.None? {
        return None;
      }
      ShortcutAfterResolving(SourceLinks, updated, m, key, resolved.value);
      updated := updated[key := resolved.value];
      todo := todo - {key};
    }
    r := Some(updated);
  }

  /** Replacing an entry by what it resolves to keeps the map a shortcut of the original. */
  lemma ShortcutAfterResolving(l: Links, u: FlatMap, m: FlatMap, key: string, v: ColorInfo)
    requires Shortcut(l, u, m) && key in m && Resolve(l, m[key], m) == Some(v)
    ensures Shortcut(l, u[key := v], m)
  {
    ResolveSomeIffEnd(l, m[key], m, v);
  }

  /** In a fully resolved map nothing is left to follow, so resolving it again changes nothing. */
  lemma ResolvedMapIsIdempotent(l: Links, r: FlatMap, m: FlatMap)
    requires FullyResolved(l, r, m)
    ensures forall k :: k in r ==> Hop(l, r[k], r).None? && Resolve(l, r[k], r) == Some(r[k])
    ensures FullyResolved(l, r, r)
  {
    forall k | k in r ensures Hop(l, r[k], r).None? && Resolve(l, r[k], r) == Some(r[k]) {
      ResolvedIsFinal(l, m[k], m);
      assert Hop(l, r[k], r).None?;
    }
  }

  /** Resolving against the fully resolved map gives what resolving against the original gives. */
  lemma ResolvedMapResolvesAlike(l: Links, r: FlatMap, m: FlatMap, c: ColorInfo)
    requires FullyResolved(l, r, m)
    ensures Resolve(l, c, r) == Resolve(l, c, m)
  {
    forall k | k in m ensures Reaches(l, m, m[k], r[k]) {
      ResolveSomeIffEnd(l, m[k], m, r[k]);
    }
    ShortcutResolve(l, r, m, c);
  }

  // ---------------------------------------------------------------------
  // References as the token files spell them

  /** `{Colors.<path>}` names the lower-cased path, when the path has no `}` and no `{`. */
  lemma ReferenceNamesPath(kind: string, path: string)
    requires '}' !in path && '{' !in path
    ensures IsReference(ColorInfo(kind, ReferenceOpen + path + "}"))
    ensures ReferenceKey(ColorInfo(kind, ReferenceOpen + path + "}")) == Lower(path)
  {
    var c := ColorInfo(kind, ReferenceOpen + path + "}");
    assert StartsWith(c.value, ReferenceOpen);
    ReferenceHasNoRgba(c);
    assert !Contains(path + "}", ReferenceOpen) by {
      if Contains(path + "}", ReferenceOpen) {
        ContainsChar(path + "}", ReferenceOpen, '{');
      }
    }
    assert c.value == ReferenceOpen + (path + "}");
    RemoveLeadingOnly(ReferenceOpen, path + "}");
    RemoveCharTrailing(path, '}');
  }

  /** Two references in a row, ending at a value with nothing to follow: all three resolve to that value. */
  lemma TwoReferenceChain(l: Links, m: FlatMap, a: string, b: string, c: string)
    requires a in m && b in m && c in m
    requires Hop(l, m[a], m) == Some(m[b]) && Hop(l, m[b], m) == Some(m[c]) && Hop(l, m[c], m).None?
    ensures Resolve(l, m[a], m) == Some(m[c])
    ensures Resolve(l, m[b], m) == Some(m[c])
    ensures Resolve(l, m[c], m) == Some(m[c])
  {
    ResolveFollowsReference(l, m[b], m);
    ResolveFollowsReference(l, m[a], m);
  }

  /**
   * `LightGray.0` holding `{Colors.Grey.0}`, `Grey.0` holding
   * `{Colors.Base.white}` and `Base.white` holding a colour: all three
   * resolve to that colour.
   */
  lemma ReferenceChainResolves(m: FlatMap, a: string, b: string, c: string, pathB: string, pathC: string)
    requires a in m && b in m && c in m
    requires '}' !in pathB && '{' !in pathB && Lower(pathB) == b
    requires '}' !in pathC && '{' !in pathC && Lower(pathC) == c
    requires m[a].value == ReferenceOpen + pathB + "}" && m[b].value == ReferenceOpen + pathC + "}"
    requires m[c].Rgba().Some?
    ensures ResolveColorInfo(m[a], m) == Some(m[c])
    ensures ResolveColorInfo(m[b], m) == Some(m[c])
    ensures ResolveColorInfo(m[c], m) == Some(m[c])
  {
    ReferenceNamesPath(m[a].kind, pathB);
    ReferenceNamesPath(m[b].kind, pathC);
    assert m[a] == ColorInfo(m[a].kind, ReferenceOpen + pathB + "}");
    assert m[b] == ColorInfo(m[b].kind, ReferenceOpen + pathC + "}");
    TwoReferenceChain(SourceLinks, m, a, b, c);
  }
}
