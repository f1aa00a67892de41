/**
 * Reading the token files' colour sections once they are decoded:
 * `extractFlatColorData` flattens the nested core colours into a map from
 * lower-cased dotted paths and resolves their references;
 * `extractColorData` replaces every semantic colour's value by the core
 * value its reference names.
 */
module Extraction {

  import opened Wrappers
  import opened Strings
  import opened Model
  import opened Extensions
  import opened Resolution

  /** A decoded JSON value. */
  datatype Json =
    | JString(s: string)
    | JNumber(n: real)
    | JBool(b: bool)
    | JNull
    | JArray(items: seq<Json>)
    | JObject(members: map<string, Json>)

  /** A colour token in the tree: an object whose `type` and `value` are both strings. */
  function LeafInfo(v: Json): (r: Option<ColorInfo>)
    ensures r.Some? <==> (v.JObject? && "type" in v.members && "value" in v.members &&
                          v.members["type"].JString? && v.members["value"].JString?)
    ensures r.Some? ==> r.value == ColorInfo(v.members["type"].s, v.members["value"].s)
  {
    if v.JObject? && "type" in v.members && "value" in v.members &&
      v.members["type"].JString? && v.members["value"].JString?
    then Some(ColorInfo(v.members["type"].s, v.members["value"].s))
    else None
  }

  /** The key of a member below `path`: `path.key` (or `key` at the top), lower-cased. */
  function FullPath(path: string, key: string): string
  {
    Lower(if path == [] then key else path + "." + key)
  }

  /** A full path is lower case, and is the lower-cased path and key joined by a dot. */
  lemma FullPathSpelling(path: string, key: string)
    ensures Lower(FullPath(path, key)) == FullPath(path, key)
    ensures path == [] ==> FullPath(path, key) == Lower(key)
    ensures path != [] ==> FullPath(path, key) == Lower(path) + "." + Lower(key)
  {
    LowerIdempotent(if path == [] then key else path + "." + key);
    if path != [] {
      LowerAppend(path, "." + key);
      LowerAppend(".", key);
    }
  }

  /** An entry of the flat map before merging: a full path and the colour token found there. */
  type Entry = (string, ColorInfo)

  /** The colour tokens a member contributes: itself if it is one, those inside it if it is another object, else none. */
  ghost function Contribution(v: Json, fullPath: string): set<Entry>
    decreases v, 1
  {
    match LeafInfo(v)
    case Some(info) => {(fullPath, info)}
    case None => if v.JObject? then Entries(v.members, fullPath) else {}
  }

  /** Every colour token of the tree below `path`, under its full path. */
  ghost function Entries(members: map<string, Json>, path: string): set<Entry>
    decreases JObject(members), 0
  {
    set k, e | k in members && e in Contribution(members[k], FullPath(path, k)) :: e
  }

  /** The tokens contributed by the members `keys`. */
  ghost function EntriesOver(members: map<string, Json>, path: string, keys: set<string>): set<Entry>
  {
    set k, e | k in keys && k in members && e in Contribution(members[k], FullPath(path, k)) :: e
  }

  ghost function Paths(entries: set<Entry>): set<string>
  {
    set e | e in entries :: e.0
  }

  /** No two tokens share a full path (paths that differ only in case count as the same). */
  ghost predicate NoCollision(entries: set<Entry>)
  {
    forall e1, e2 :: e1 in entries && e2 in entries && e1.0 == e2.0 ==> e1 == e2
  }

  /** The flat map before resolution, when no two tokens collide. */
  ghost function RawMap(entries: set<Entry>): (r: FlatMap)
    requires NoCollision(entries)
    ensures r.Keys == Paths(entries)
    ensures forall e :: e in entries ==> e.0 in r && r[e.0] == e.1
  {
    map e | e in entries :: e.0 := e.1
  }

  // ---------------------------------------------------------------------
  // `extractFlatColorData`

  /**
   * `extractFlatColorData(from:path:)`: every member, in any order, is
   * stored under its full path when it is a colour token, flattened
   * recursively (and merged in) when it is another object, and skipped
   * otherwise; the flat map is then resolved. `None` where the source does
   * not return (a reference chain that never ends). When no two tokens
   * collide, every entry is the resolution of its token in the whole flat
   * map.
   */
  method ExtractFlatColorData(members: map<string, Json>, path: string) returns (r: Option<FlatMap>)
    ensures r.Some? ==> r.value.Keys == Paths(Entries(members, path))
    ensures NoCollision(Entries(members, path)) ==>
      var raw := RawMap(Entries(members, path));
      (r.Some? <==> !EndlessSomewhere(SourceLinks, raw)) &&
      (r.Some? ==> FullyResolved(SourceLinks, r.value, raw))
    decreases JObject(members)
  {
    ghost var all := Entries(members, path);
    var flat: FlatMap := map[];
    var todo := members.Keys;
    ghost var done: set<string> := {};
    while todo != {}
      invariant todo !! done && todo + done == members.Keys
      invariant flat.Keys == Paths(EntriesOver(members, path, done))
      invariant NoCollision(all) ==> PartlyResolved(SourceLinks, flat, RawMap(all))
      decreases |todo|
    {
      var key :| key in todo;
      var fullPath := FullPath(path, key);
      var value := members[key];
      EntriesOverGrow(members, path, done, key);
      MoveToDone(todo, done, members.Keys, key);
      match LeafInfo(value) {
        case Some(info) =>
          LeafStep(SourceLinks, members, path, done, key, flat, info);
          flat := flat[fullPath := info];
        case None =>
          if value.JObject? {
            var nested := ExtractFlatColorData(value.members, fullPath);
            if nested.None? {
              NestedFailure(SourceLinks, members, path, key);
              return None;
            }
            NestedStep(SourceLinks, members, path, done, key, flat, nested.value);
            flat := flat + nested.value;
          } else {
            ScalarStep(members, path, done, key);
          }
      }
      todo := todo - {key};
      done := done + {key};
    }
    EntriesOverAll(members, path);
    r := ResolveNestedFlatColorData(flat);
    if NoCollision(all) {
      FlatResolvesAsRaw(SourceLinks, flat, RawMap(all), r);
    }
  }

  /** A member that is neither a colour token nor an object adds no token. */
  lemma ScalarStep(members: map<string, Json>, path: string, done: set<string>, key: string)
    requires key in members && LeafInfo(members[key]).None? && !members[key].JObject?
    ensures EntriesOver(members, path, done + {key}) == EntriesOver(members, path, done)
  {
    EntriesOverGrow(members, path, done, key);
  }

  /** Moving one key from the work list to the visited keys keeps them a partition and shortens the list. */
  lemma MoveToDone(todo: set<string>, done: set<string>, all: set<string>, key: string)
    requires todo !! done && todo + done == all && key in todo
    ensures (todo - {key}) !! (done + {key}) && (todo - {key}) + (done + {key}) == all
    ensures |todo - {key}| < |todo|
  {
  }

  /** Every entry of `flat` lies on the reference chain of the raw token under its path. */
  ghost predicate PartlyResolved(l: Links, flat: FlatMap, raw: FlatMap)
  {
    forall p :: p in flat ==> p in raw && Reaches(l, raw, raw[p], flat[p])
  }

  lemma EntriesOverGrow(members: map<string, Json>, path: string, done: set<string>, key: string)
    requires key in members
    ensures EntriesOver(members, path, done + {key}) ==
      EntriesOver(members, path, done) + Contribution(members[key], FullPath(path, key))
  {
  }

  lemma EntriesOverAll(members: map<string, Json>, path: string)
    ensures EntriesOver(members, path, members.Keys) == Entries(members, path)
  {
  }

  /** The tokens of an inner object are those of the whole tree's member holding it. */
  lemma InnerEntries(members: map<string, Json>, path: string, key: string)
    requires key in members && LeafInfo(members[key]).None? && members[key].JObject?
    ensures Contribution(members[key], FullPath(path, key)) == Entries(members[key].members, FullPath(path, key))
    ensures Entries(members[key].members, FullPath(path, key)) <= Entries(members, path)
  {
  }

  /** Tokens that do not collide in a tree do not collide in any part of it, whose map is then a sub-map. */
  lemma RawSubmap(inner: set<Entry>, all: set<Entry>)
    requires inner <= all && NoCollision(all)
    ensures NoCollision(inner) && IsSubmap(RawMap(inner), RawMap(all))
  {
  }

  /** Storing a colour token keeps the invariant: it lies on its own chain, with no hop. */
  lemma LeafStep(l: Links, members: map<string, Json>, path: string, done: set<string>, key: string, flat: FlatMap, info: ColorInfo)
    requires key in members && LeafInfo(members[key]) == Some(info)
    requires flat.Keys == Paths(EntriesOver(members, path, done))
    requires NoCollision(Entries(members, path)) ==> PartlyResolved(l, flat, RawMap(Entries(members, path)))
    ensures flat[FullPath(path, key) := info].Keys == Paths(EntriesOver(members, path, done + {key}))
    ensures NoCollision(Entries(members, path)) ==>
      PartlyResolved(l, flat[FullPath(path, key) := info], RawMap(Entries(members, path)))
  {
    var fp := FullPath(path, key);
    EntriesOverGrow(members, path, done, key);
    LeafContribution(members, path, key, info);
    PathsAddOne(EntriesOver(members, path, done), (fp, info));
    if NoCollision(Entries(members, path)) {
      var raw := RawMap(Entries(members, path));
      LeafInRaw(l, members, path, key, info);
      PartlyResolvedAdd(l, flat, raw, fp, info);
    }
  }

  lemma LeafContribution(members: map<string, Json>, path: string, key: string, info: ColorInfo)
    requires key in members && LeafInfo(members[key]) == Some(info)
    ensures Contribution(members[key], FullPath(path, key)) == {(FullPath(path, key), info)}
  {
  }

  lemma PathsAddOne(entries: set<Entry>, e: Entry)
    ensures Paths(entries + {e}) == Paths(entries) + {e.0}
  {
  }

  /** A colour token is in the raw map under its full path, and reaches itself. */
  lemma LeafInRaw(l: Links, members: map<string, Json>, path: string, key: string, info: ColorInfo)
    requires key in members && LeafInfo(members[key]) == Some(info)
    requires NoCollision(Entries(members, path))
    ensures FullPath(path, key) in RawMap(Entries(members, path))
    ensures Reaches(l, RawMap(Entries(members, path)), RawMap(Entries(members, path))[FullPath(path, key)], info)
  {
    var raw := RawMap(Entries(members, path));
    LeafContribution(members, path, key, info);
    assert (FullPath(path, key), info) in Entries(members, path);
    assert Chain(l, info, raw, 0) == Some(info);
  }

  lemma PartlyResolvedAdd(l: Links, flat: FlatMap, raw: FlatMap, p: string, v: ColorInfo)
    requires PartlyResolved(l, flat, raw)
    requires p in raw && Reaches(l, raw, raw[p], v)
    ensures PartlyResolved(l, flat[p := v], raw)
  {
  }


  /** Merging a flattened inner object keeps the invariant: its entries are resolved in a sub-map. */
  lemma NestedStep(l: Links, members: map<string, Json>, path: string, done: set<string>, key: string, flat: FlatMap, nested: FlatMap)
    requires key in members && LeafInfo(members[key]).None? && members[key].JObject?
    requires nested.Keys == Paths(Entries(members[key].members, FullPath(path, key)))
    requires NoCollision(Entries(members[key].members, FullPath(path, key))) ==>
      FullyResolved(l, nested, RawMap(Entries(members[key].members, FullPath(path, key))))
    requires flat.Keys == Paths(EntriesOver(members, path, done))
    requires NoCollision(Entries(members, path)) ==> PartlyResolved(l, flat, RawMap(Entries(members, path)))
    ensures (flat + nested).Keys == Paths(EntriesOver(members, path, done + {key}))
    ensures NoCollision(Entries(members, path)) ==>
      PartlyResolved(l, flat + nested, RawMap(Entries(members, path)))
  {
    var fp := FullPath(path, key);
    var inner := Entries(members[key].members, fp);
    var all := Entries(members, path);
    EntriesOverGrow(members, path, done, key);
    InnerEntries(members, path, key);
    if NoCollision(all) {
      RawSubmap(inner, all);
      MergedIsPartlyResolved(l, flat, nested, RawMap(inner), RawMap(all));
    }
  }

  lemma MergedIsPartlyResolved(l: Links, flat: FlatMap, nested: FlatMap, sub: FlatMap, raw: FlatMap)
    requires IsSubmap(sub, raw) && FullyResolved(l, nested, sub) && PartlyResolved(l, flat, raw)
    ensures PartlyResolved(l, flat + nested, raw)
  {
    forall p | p in nested ensures p in raw && Reaches(l, raw, raw[p], nested[p]) {
      SubmapResolve(l, sub, raw, sub[p]);
    }
  }

  /** A flattened inner object that does not return means a token of the whole tree whose chain never ends. */
  lemma NestedFailure(l: Links, members: map<string, Json>, path: string, key: string)
    requires key in members && LeafInfo(members[key]).None? && members[key].JObject?
    requires NoCollision(Entries(members[key].members, FullPath(path, key))) ==>
      EndlessSomewhere(l, RawMap(Entries(members[key].members, FullPath(path, key))))
    ensures NoCollision(Entries(members, path)) ==> EndlessSomewhere(l, RawMap(Entries(members, path)))
  {
    var inner := Entries(members[key].members, FullPath(path, key));
    var all := Entries(members, path);
    InnerEntries(members, path, key);
    if NoCollision(all) {
      RawSubmap(inner, all);
      EndlessInSubmap(l, RawMap(inner), RawMap(all));
    }
  }

  /** Some entry's reference chain never ends. */
  predicate EndlessSomewhere(l: Links, m: FlatMap)
  {
    exists p :: p in m && Resolve(l, m[p], m).None?
  }

  lemma EndlessInSubmap(l: Links, sub: FlatMap, raw: FlatMap)
    requires IsSubmap(sub, raw) && EndlessSomewhere(l, sub)
    ensures EndlessSomewhere(l, raw)
  {
    var p :| p in sub && Resolve(l, sub[p], sub).None?;
    SubmapResolve(l, sub, raw, sub[p]);
  }

  /** Resolving the partly resolved flat map gives the resolution of the raw one. */
  lemma FlatResolvesAsRaw(l: Links, flat: FlatMap, raw: FlatMap, r: Option<FlatMap>)
    requires flat.Keys == raw.Keys && PartlyResolved(l, flat, raw)
    requires r.Some? <==> forall k :: k in flat ==> Resolve(l, flat[k], flat).Some?
    requires r.Some? ==> FullyResolved(l, r.value, flat)
    ensures r.Some? <==> !EndlessSomewhere(l, raw)
    ensures r.Some? ==> FullyResolved(l, r.value, raw)
  {
    assert Shortcut(l, flat, raw);
    forall p | p in raw ensures Resolve(l, flat[p], flat) == Resolve(l, raw[p], raw) {
      ShortcutResolve(l, flat, raw, flat[p]);
      var t: nat :| Chain(l, raw[p], raw, t) == Some(flat[p]);
      ChainAgrees(l, raw[p], raw, t, flat[p]);
    }
  }

  /** Members that are not objects contribute nothing: `{"Black opacity": "string"}` flattens to the empty map. */
  lemma ScalarsContributeNothing(members: map<string, Json>, path: string)
    requires forall k :: k in members ==> !members[k].JObject?
    ensures Entries(members, path) == {}
  {
  }

  /** Every path in the flat map is lower case. */
  lemma {:induction false} PathsAreLowerCase(members: map<string, Json>, path: string)
    ensures forall e :: e in Entries(members, path) ==> Lower(e.0) == e.0
    decreases JObject(members)
  {
    forall e | e in Entries(members, path) ensures Lower(e.0) == e.0 {
      var k :| k in members && e in Contribution(members[k], FullPath(path, k));
      FullPathSpelling(path, k);
      if LeafInfo(members[k]).None? {
        PathsAreLowerCase(members[k].members, FullPath(path, k));
      }
    }
  }

  /** A colour token directly under `path` is an entry under `path.key`. */
  lemma LeafIsEntry(members: map<string, Json>, path: string, key: string)
    requires key in members && LeafInfo(members[key]).Some?
    ensures (FullPath(path, key), LeafInfo(members[key]).value) in Entries(members, path)
  {
    assert Contribution(members[key], FullPath(path, key)) == {(FullPath(path, key), LeafInfo(members[key]).value)};
  }

  // ---------------------------------------------------------------------
  // `extractColorData`

  datatype ExtractColorDataError = InputIsWrong(reason: string)

  /** The semantic colours: category, then variable name, then token. */
  type ColorData = map<string, map<string, ColorInfo>>

  /**
   * The core key a semantic value names: `sanitizeSemanticJSONKey` with the
   * closing brace searched after `{Colors.`, so that a `}` earlier in the
   * value, on which the source traps, is passed over.
   */
  function LookupKey(c: ColorInfo): string
  {
    SanitizeSemanticJsonKey(c.value)
  }

  /** The error for a semantic colour whose key is not in the flat map. */
  function LookupFailure(semanticKey: string, value: string): ExtractColorDataError
  {
    InputIsWrong("Error: couldn't lookup ColorInfo for " + semanticKey + " with value " + value)
  }

  /** Every colour of a category names a key of the flat map. */
  predicate AllFoundIn(vars: map<string, ColorInfo>, flat: FlatMap)
  {
    forall v :: v in vars ==> LookupKey(vars[v]) in flat
  }

  /** A semantic colour with its value replaced by the core value it names; its type is kept. */
  function Looked(c: ColorInfo, flat: FlatMap): (r: ColorInfo)
    requires LookupKey(c) in flat
    ensures r.kind == c.kind && r.value == flat[LookupKey(c)].value
  {
    ColorInfo(c.kind, flat[LookupKey(c)].value)
  }

  /** `out` keeps the colours of `vars`, each looked up in `flat`. */
  predicate LookedUpIn(out: map<string, ColorInfo>, vars: map<string, ColorInfo>, flat: FlatMap)
  {
    AllFoundIn(vars, flat) && out.Keys == vars.Keys &&
    forall v :: v in vars ==> out[v] == Looked(vars[v], flat)
  }

  /**
   * The inner loop of `extractColorData`: every colour of one category
   * takes the core value it names; the first (in iteration order) whose key
   * is missing aborts with an error naming it.
   */
  method ExtractCategory(vars: map<string, ColorInfo>, flat: FlatMap) returns (r: Result<map<string, ColorInfo>, ExtractColorDataError>)
    ensures r.Success? <==> AllFoundIn(vars, flat)
    ensures r.Success? ==> LookedUpIn(r.value, vars, flat)
    ensures r.Failure? ==> exists v :: v in vars && LookupKey(vars[v]) !in flat && r.error == LookupFailure(v, vars[v].value)
  {
    var categoryValue := vars;
    var variables := vars.Keys;
    while variables != {}
      invariant variables <= vars.Keys && categoryValue.Keys == vars.Keys
      invariant forall v :: v in variables ==> categoryValue[v] == vars[v]
      invariant forall v :: v in vars && v !in variables ==>
        LookupKey(vars[v]) in flat && categoryValue[v] == Looked(vars[v], flat)
      decreases |variables|
    {
      var semanticKey :| semanticKey in variables;
      var semanticInfo := categoryValue[semanticKey];
      var sanitizedValue := SanitizeSemanticJsonKey(semanticInfo.value);
      if sanitizedValue !in flat {
        return Failure(LookupFailure(semanticKey, semanticInfo.value));
      }
      semanticInfo := semanticInfo.(value := flat[sanitizedValue].value);
      categoryValue := categoryValue[semanticKey := semanticInfo];
      variables := variables - {semanticKey};
    }
    r := Success(categoryValue);
  }

  /** Every semantic colour names a key of the flat map. */
  predicate AllFound(data: ColorData, flat: FlatMap)
  {
    forall cat :: cat in data ==> AllFoundIn(data[cat], flat)
  }

  /** `out` has the categories of `data`, each looked up in `flat`. */
  predicate LookedUp(out: ColorData, data: ColorData, flat: FlatMap)
  {
    out.Keys == data.Keys && forall cat :: cat in data ==> LookedUpIn(out[cat], data[cat], flat)
  }

  /**
   * `extractColorData(from:using:)` on decoded data: every semantic colour,
   * category by category, takes the core value its reference names. The
   * first colour (in iteration order) whose key is missing aborts with an
   * error naming it, and nothing is returned.
   */
  method ExtractColorData(data: ColorData, flat: FlatMap) returns (r: Result<ColorData, ExtractColorDataError>)
    ensures r.Success? <==> AllFound(data, flat)
    ensures r.Success? ==> LookedUp(r.value, data, flat)
    ensures r.Failure? ==> exists cat, v :: (cat in data && v in data[cat] && LookupKey(data[cat][v]) !in flat &&
                                             r.error == LookupFailure(v, data[cat][v].value))
  {
    var colorData := data;
    var categories := data.Keys;
    while categories != {}
      invariant categories <= data.Keys && colorData.Keys == data.Keys
      invariant forall cat :: cat in categories ==> colorData[cat] == data[cat]
      invariant forall cat :: cat in data && cat !in categories ==> LookedUpIn(colorData[cat], data[cat], flat)
      decreases |categories|
    {
      var categoryKey :| categoryKey in categories;
      var categoryValue := ExtractCategory(colorData[categoryKey], flat);
      if categoryValue.Failure? {
        return Failure(categoryValue.error);
      }
      colorData := colorData[categoryKey := categoryValue.value];
      categories := categories - {categoryKey};
    }
    r := Success(colorData);
  }

  /**
   * A semantic value `{Colors.<path>}` (even inside other text without
   * braces) takes the core value at the lower-cased path, the key the source
   * computes too.
   */
  lemma LookupOfReference(c: ColorInfo, pre: string, path: string, post: string, flat: FlatMap)
    requires c.value == pre + ReferenceOpen + path + "}" + post
    requires '{' !in pre && '}' !in pre && '}' !in path && Lower(path) in flat
    ensures LookupKey(c) == Lower(path)
    ensures SanitizeSemanticJsonKeyAsWritten(c.value) == Some(Lower(path))
    ensures Looked(c, flat) == ColorInfo(c.kind, flat[Lower(path)].value)
  {
    SanitizeReference(pre, path, post);
  }

  /**
   * The lookup key is the source's key on every value where the source's
   * `sanitizeSemanticJSONKey` does not trap; on the others (a `}` before
   * `{Colors.`) the source stops and the model uses the corrected key.
   */
  lemma LookupKeyAgreesWithSource(c: ColorInfo)
    requires SanitizeSemanticJsonKeyAsWritten(c.value).Some?
    ensures LookupKey(c) == SanitizeSemanticJsonKeyAsWritten(c.value).value
  {
    SanitizeAgreesWhereDefined(c.value);
  }
}
