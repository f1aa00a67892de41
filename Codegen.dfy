/**
 * The decisions the code generator takes before it builds Swift syntax:
 * which semantic colours have both a light and a dark variant, when a
 * colour constant cannot be generated, what the enums are called, and in
 * which order number constants are listed.
 */
module Codegen {

  import opened Wrappers
  import opened Strings
  import opened Literals
  import opened Model
  import opened Extensions
  import opened Extraction

  datatype CodegenError = CodeHasWarnings | CodeHasErrors | InputIsWrong(reason: string)

  // ---------------------------------------------------------------------
  // `mergeColorData`

  /** The light and the dark token of one semantic colour. */
  datatype Variants = Variants(light: ColorInfo, dark: ColorInfo)

  type MergedData = map<string, map<string, Variants>>

  /** Variable `v` of category `c` has both a light and a dark token. */
  predicate Shared(light: ColorData, dark: ColorData, c: string, v: string)
  {
    c in light && c in dark && v in light[c] && v in dark[c]
  }

  /** `merged` is the inner join of `light` and `dark` on (category, variable), with no empty category. */
  ghost predicate IsJoin(merged: MergedData, light: ColorData, dark: ColorData)
  {
    (forall c, v :: (c in merged && v in merged[c]) <==> Shared(light, dark, c, v)) &&
    (forall c, v :: c in merged && v in merged[c] ==> Shared(light, dark, c, v) && merged[c][v] == Variants(light[c][v], dark[c][v])) &&
    (forall c :: c in merged ==> merged[c] != map[])
  }

  /**
   * `mergeColorData`: an inner join on (category, variable). A pair is
   * present exactly when both inputs have it, it holds the two tokens
   * unchanged, and a category with no shared variable does not appear.
   */
  method MergeColorData(light: ColorData, dark: ColorData) returns (merged: MergedData)
    ensures forall c, v :: (c in merged && v in merged[c]) <==> Shared(light, dark, c, v)
    ensures forall c, v :: c in merged && v in merged[c] ==> Shared(light, dark, c, v) && merged[c][v] == Variants(light[c][v], dark[c][v])
    ensures forall c :: c in merged ==> merged[c] != map[]
  {
    merged := map[];
    var keys := light.Keys;
    while keys != {}
      invariant keys <= light.Keys
      invariant forall c :: c in merged ==> c !in keys && merged[c] != map[]
      invariant forall c, v :: (c in merged && v in merged[c]) <==> (c !in keys && Shared(light, dark, c, v))
      invariant forall c, v :: c in merged && v in merged[c] ==> Shared(light, dark, c, v) && merged[c][v] == Variants(light[c][v], dark[c][v])
      decreases |keys|
    {
      var key :| key in keys;
      keys := keys - {key};
      if key !in dark {
        continue;
      }
      var category := JoinCategory(light[key], dark[key]);
      if category != map[] {
        merged := merged[key := category];
      }
    }
  }

  /**
   * The inner loop of `mergeColorData` for one category present in both
   * inputs: the shared variables with their two tokens. The source stores
   * each pair into the merged map as it goes, so a category appears once
   * it has a first shared variable; storing the finished category when it
   * is not empty gives the same map.
   */
  method JoinCategory(lightValues: map<string, ColorInfo>, darkValues: map<string, ColorInfo>) returns (category: map<string, Variants>)
    ensures category.Keys == lightValues.Keys * darkValues.Keys
    ensures forall v :: v in category ==> category[v] == Variants(lightValues[v], darkValues[v])
  {
    category := map[];
    var innerKeys := lightValues.Keys;
    while innerKeys != {}
      invariant innerKeys <= lightValues.Keys
      invariant category.Keys == (lightValues.Keys - innerKeys) * darkValues.Keys
      invariant forall v :: v in category ==> v in lightValues && v in darkValues && category[v] == Variants(lightValues[v], darkValues[v])
      decreases |innerKeys|
    {
      var innerKey :| innerKey in innerKeys;
      innerKeys := innerKeys - {innerKey};
      if innerKey in darkValues {
        category := category[innerKey := Variants(lightValues[innerKey], darkValues[innerKey])];
      }
    }
  }

  // ---------------------------------------------------------------------
  // `generateSemanticVariable`, `generateSemanticEnum`, `generateSemanticTopLevelEnum`

  /** A colour constant: the variable key and category it comes from, and the two colours of its dynamic provider. */
  datatype SemanticVariable = SemanticVariable(key: string, parentName: string, light: RGBA, dark: RGBA)
  {
    /** The Swift name of the constant. */
    function Name(): string
    {
      SanitizeSemanticVariableName(key, parentName)
    }
  }

  /** A category's enum: its Swift name and its constants, by variable key. */
  datatype SemanticEnum = SemanticEnum(name: string, variables: map<string, SemanticVariable>)

  /**
   * The generators below read colours through `rgba`; the generator uses
   * `ColorInfo.rgba`, which is `ColorRgba`. Keeping the reader a parameter
   * keeps the hex parser out of the proofs about the loops.
   */
  type Reader = ColorInfo -> Option<RGBA>

  /** `ColorInfo.rgba`: the colour `parseHex` reads from the value. */
  const ColorRgba: Reader := (c: ColorInfo) => c.Rgba()

  /** Reading through `ColorRgba` succeeds exactly when `parseHex` does, with its colour. */
  lemma ColorRgbaIsParseHex(c: ColorInfo)
    ensures ColorRgba(c).Some? <==> ParseHex(c.value).Success?
    ensures ColorRgba(c).Some? ==> ColorRgba(c).value == ParseHex(c.value).value
  {
  }

  /** Both variants of a semantic colour spell a colour. */
  predicate ParsesBoth(rgba: Reader, v: Variants)
  {
    rgba(v.light).Some? && rgba(v.dark).Some?
  }

  function LightUnparsable(name: string): CodegenError
  {
    CodegenError.InputIsWrong("Codegen: unable to parse light version of Color(" + name + ")")
  }

  function DarkUnparsable(name: string): CodegenError
  {
    CodegenError.InputIsWrong("Codegen: unable to parse dark version of Color(" + name + ")")
  }

  /**
   * `generateSemanticVariable`: fails when the light token is not a colour,
   * and otherwise when the dark one is not; the constant is named by
   * `sanitizeSemanticVariableName` and carries both colours.
   */
  function GenerateSemanticVariable(rgba: Reader, name: string, parentName: string, info: Variants): (r: Result<SemanticVariable, CodegenError>)
    ensures r.Success? <==> ParsesBoth(rgba, info)
    ensures rgba(info.light).None? ==> r == Failure(LightUnparsable(name))
    ensures rgba(info.light).Some? && rgba(info.dark).None? ==> r == Failure(DarkUnparsable(name))
    ensures r.Success? ==> r.value.light == rgba(info.light).value && r.value.dark == rgba(info.dark).value
    ensures r.Success? ==> r.value.key == name && r.value.parentName == parentName
  {
    match rgba(info.light)
    case None => Failure(LightUnparsable(name))
    case Some(lightRgba) =>
      match rgba(info.dark)
      case None => Failure(DarkUnparsable(name))
      case Some(darkRgba) => Success(SemanticVariable(name, parentName, lightRgba, darkRgba))
  }

  /** The two failure messages name the variant, so they never coincide. */
  lemma FailureNamesTheVariant(name: string, other: string)
    ensures LightUnparsable(name) != DarkUnparsable(other)
  {
    var prefix := "Codegen: unable to parse ";
    assert LightUnparsable(name).reason[|prefix|] == 'l';
    assert DarkUnparsable(other).reason[|prefix|] == 'd';
  }

  /** With `ColorInfo.rgba`, a light value `parseHex` rejects fails with the light message, whatever the dark one is. */
  lemma UnparsableLightComesFirst(name: string, parentName: string, info: Variants)
    requires ParseHex(info.light.value).Failure?
    ensures GenerateSemanticVariable(ColorRgba, name, parentName, info) == Failure(LightUnparsable(name))
  {
    ColorRgbaIsParseHex(info.light);
  }

  /** With `ColorInfo.rgba`, two values `parseHex` reads give a constant carrying both colours. */
  lemma ParsedVariantsGenerate(name: string, parentName: string, info: Variants)
    requires ParseHex(info.light.value).Success? && ParseHex(info.dark.value).Success?
    ensures GenerateSemanticVariable(ColorRgba, name, parentName, info) ==
      Success(SemanticVariable(name, parentName, ParseHex(info.light.value).value, ParseHex(info.dark.value).value))
  {
    ColorRgbaIsParseHex(info.light);
    ColorRgbaIsParseHex(info.dark);
  }

  /**
   * `e` is the enum generated for category `c`: named by the Pascal case of
   * `c`, one constant per variable, each the variable `generateSemanticVariable`
   * produces for it.
   */
  predicate EnumFor(rgba: Reader, c: string, category: map<string, Variants>, e: SemanticEnum)
  {
    e.name == ToPascalCase(c) && e.variables.Keys == category.Keys &&
    forall v :: v in category ==> GenerateSemanticVariable(rgba, v, c, category[v]) == Success(e.variables[v])
  }

  /**
   * `generateSemanticEnum`: the enum is named `toPascalCase(name)` and holds
   * one constant per variable; the first variable (in iteration order)
   * that cannot be generated aborts with its error.
   */
  method GenerateSemanticEnum(rgba: Reader, name: string, category: map<string, Variants>) returns (r: Result<SemanticEnum, CodegenError>)
    ensures r.Success? <==> forall v :: v in category ==> ParsesBoth(rgba, category[v])
    ensures r.Success? ==> r.value.name == ToPascalCase(name) && r.value.variables.Keys == category.Keys
    ensures r.Success? ==> forall v :: v in category ==> GenerateSemanticVariable(rgba, v, name, category[v]) == Success(r.value.variables[v])
    ensures r.Failure? ==> exists v :: v in category && !ParsesBoth(rgba, category[v]) &&
                                       GenerateSemanticVariable(rgba, v, name, category[v]) == Failure(r.error)
  {
    var variables: map<string, SemanticVariable> := map[];
    var todo := category.Keys;
    while todo != {}
      invariant todo <= category.Keys
      invariant variables.Keys == category.Keys - todo
      invariant forall v :: v in variables ==> GenerateSemanticVariable(rgba, v, name, category[v]) == Success(variables[v])
      decreases |todo|
    {
      var variableName :| variableName in todo;
      var generated := GenerateSemanticVariable(rgba, variableName, name, category[variableName]);
      if generated.Failure? {
        return Failure(generated.error);
      }
      variables := variables[variableName := generated.value];
      todo := todo - {variableName};
    }
    r := Success(SemanticEnum(ToPascalCase(name), variables));
  }

  /**
   * `generateSemanticTopLevelEnum`: one enum per merged category. It
   * succeeds exactly when every colour that has both a light and a dark
   * token spells a colour in both; colours present in one variant only
   * are never looked at. A failure is the error of one such colour.
   */
  method GenerateSemanticTopLevelEnum(rgba: Reader, light: ColorData, dark: ColorData) returns (r: Result<map<string, SemanticEnum>, CodegenError>)
    ensures r.Success? <==> forall c, v :: Shared(light, dark, c, v) ==> ParsesBoth(rgba, Variants(light[c][v], dark[c][v]))
    ensures r.Success? ==> forall c :: c in r.value <==> exists v :: Shared(light, dark, c, v)
    ensures r.Success? ==> forall c :: c in r.value ==> r.value[c].name == ToPascalCase(c)
    ensures r.Success? ==> forall c, v :: c in r.value && v in r.value[c].variables <==> Shared(light, dark, c, v)
    ensures r.Success? ==> forall c, v :: Shared(light, dark, c, v) ==>
      (c in r.value && v in r.value[c].variables &&
       GenerateSemanticVariable(rgba, v, c, Variants(light[c][v], dark[c][v])) == Success(r.value[c].variables[v]))
    ensures r.Failure? ==> exists c, v :: (Shared(light, dark, c, v) && !ParsesBoth(rgba, Variants(light[c][v], dark[c][v])) &&
                                          GenerateSemanticVariable(rgba, v, c, Variants(light[c][v], dark[c][v])) == Failure(r.error))
  {
    var combinedData := MergeColorData(light, dark);
    r := GenerateSemanticEnums(rgba, combinedData);
    if r.Failure? {
      var c :| c in combinedData && exists v :: v in combinedData[c] && !ParsesBoth(rgba, combinedData[c][v]) &&
                                               GenerateSemanticVariable(rgba, v, c, combinedData[c][v]) == Failure(r.error);
      JoinFailure(rgba, light, dark, combinedData, c, r.error);
    } else {
      JoinSuccess(rgba, light, dark, combinedData, r.value);
    }
  }

  /** The loop of `generateSemanticTopLevelEnum`: one enum per category, the first failure aborting. */
  method GenerateSemanticEnums(rgba: Reader, combinedData: MergedData) returns (r: Result<map<string, SemanticEnum>, CodegenError>)
    ensures r.Success? <==> forall c, v :: c in combinedData && v in combinedData[c] ==> ParsesBoth(rgba, combinedData[c][v])
    ensures r.Success? ==> r.value.Keys == combinedData.Keys
    ensures r.Success? ==> forall c :: c in r.value ==> EnumFor(rgba, c, combinedData[c], r.value[c])
    ensures r.Failure? ==> exists c :: c in combinedData && exists v :: v in combinedData[c] && !ParsesBoth(rgba, combinedData[c][v]) &&
                                                                 GenerateSemanticVariable(rgba, v, c, combinedData[c][v]) == Failure(r.error)
  {
    var enums: map<string, SemanticEnum> := map[];
    var todo := combinedData.Keys;
    while todo != {}
      invariant todo <= combinedData.Keys
      invariant Covered(rgba, combinedData, enums, combinedData.Keys - todo)
      decreases |todo|
    {
      var enumName :| enumName in todo;
      var generated := GenerateSemanticEnum(rgba, enumName, combinedData[enumName]);
      if generated.Failure? {
        return Failure(generated.error);
      }
      CoveredStep(rgba, combinedData, enums, todo, enumName, generated.value);
      enums := enums[enumName := generated.value];
      todo := todo - {enumName};
    }
    r := Success(enums);
  }

  /** The categories in `done` have their enums in `enums`, and all their colours parse. */
  ghost predicate Covered(rgba: Reader, data: MergedData, enums: map<string, SemanticEnum>, done: set<string>)
  {
    done <= data.Keys && enums.Keys == done &&
    (forall c :: c in enums ==> EnumFor(rgba, c, data[c], enums[c])) &&
    (forall c, v :: c in done && v in data[c] ==> ParsesBoth(rgba, data[c][v]))
  }

  /** Generating one more category's enum extends what is covered by that category. */
  lemma CoveredStep(rgba: Reader, data: MergedData, enums: map<string, SemanticEnum>, todo: set<string>, c: string, e: SemanticEnum)
    requires todo <= data.Keys && c in todo && Covered(rgba, data, enums, data.Keys - todo)
    requires e.name == ToPascalCase(c) && e.variables.Keys == data[c].Keys
    requires forall v :: v in data[c] ==> GenerateSemanticVariable(rgba, v, c, data[c][v]) == Success(e.variables[v])
    ensures Covered(rgba, data, enums[c := e], data.Keys - (todo - {c}))
  {
    var done, enums' := data.Keys - (todo - {c}), enums[c := e];
    assert done == (data.Keys - todo) + {c};
    forall d | d in enums' ensures EnumFor(rgba, d, data[d], enums'[d]) {
      if d != c {
        assert enums'[d] == enums[d];
      }
    }
    forall d, v | d in done && v in data[d] ensures ParsesBoth(rgba, data[d][v]) {
      if d == c {
        assert GenerateSemanticVariable(rgba, v, c, data[c][v]).Success?;
      }
    }
  }

  /** A colour of the join that fails to generate is a shared colour that fails to generate. */
  lemma JoinFailure(rgba: Reader, light: ColorData, dark: ColorData, merged: MergedData, c: string, e: CodegenError)
    requires IsJoin(merged, light, dark) && c in merged
    requires exists v :: v in merged[c] && !ParsesBoth(rgba, merged[c][v]) && GenerateSemanticVariable(rgba, v, c, merged[c][v]) == Failure(e)
    ensures exists c, v :: (Shared(light, dark, c, v) && !ParsesBoth(rgba, Variants(light[c][v], dark[c][v])) &&
                            GenerateSemanticVariable(rgba, v, c, Variants(light[c][v], dark[c][v])) == Failure(e))
  {
    var v :| v in merged[c] && !ParsesBoth(rgba, merged[c][v]) && GenerateSemanticVariable(rgba, v, c, merged[c][v]) == Failure(e);
    assert Shared(light, dark, c, v);
  }

  /** Enums generated for every category of the join cover exactly the shared colours. */
  lemma JoinSuccess(rgba: Reader, light: ColorData, dark: ColorData, merged: MergedData, enums: map<string, SemanticEnum>)
    requires IsJoin(merged, light, dark) && enums.Keys == merged.Keys
    requires forall c :: c in enums ==> EnumFor(rgba, c, merged[c], enums[c])
    requires forall c, v :: c in merged && v in merged[c] ==> ParsesBoth(rgba, merged[c][v])
    ensures forall c, v :: Shared(light, dark, c, v) ==> ParsesBoth(rgba, Variants(light[c][v], dark[c][v]))
    ensures forall c :: c in enums <==> exists v :: Shared(light, dark, c, v)
    ensures forall c :: c in enums ==> enums[c].name == ToPascalCase(c)
    ensures forall c, v :: c in enums && v in enums[c].variables <==> Shared(light, dark, c, v)
    ensures forall c, v :: Shared(light, dark, c, v) ==>
      (c in enums && v in enums[c].variables &&
       GenerateSemanticVariable(rgba, v, c, Variants(light[c][v], dark[c][v])) == Success(enums[c].variables[v]))
  {
    forall c | c in merged ensures exists v :: Shared(light, dark, c, v) {
      var v :| v in merged[c];
    }
  }

  // ---------------------------------------------------------------------
  // `NumberInput` and `generateNumberTopLevelEnum`

  datatype NumberInput = Radius(data: map<string, NumberInfo>) | Spacing(data: map<string, NumberInfo>)
  {
    /** The name of the generated enum. */
    function Identifier(): string
    {
      match this
      case Radius(_) => "TokenRadius"
      case Spacing(_) => "TokenSpacing"
    }
  }

  /** Radii and spacings go to two enums whose names differ and both start with `Token`. */
  lemma IdentifiersDiffer(radius: map<string, NumberInfo>, spacing: map<string, NumberInfo>)
    ensures Radius(radius).Identifier() != Spacing(spacing).Identifier()
    ensures StartsWith(Radius(radius).Identifier(), "Token") && StartsWith(Spacing(spacing).Identifier(), "Token")
  {
    assert Radius(radius).Identifier()[5] == 'R';
    assert Spacing(spacing).Identifier()[5] == 'S';
  }

  /** A number token under its name, as the dictionary lists it. */
  type NamedNumber = (string, NumberInfo)

  /** Values never decrease along `s`. */
  predicate SortedByValue(s: seq<NamedNumber>)
  {
    forall i, j :: 0 <= i < j < |s| ==> s[i].1.value <= s[j].1.value
  }

  /** `x` placed before the first entry whose value is not below it. */
  function Insert(x: NamedNumber, s: seq<NamedNumber>): (r: seq<NamedNumber>)
    requires SortedByValue(s)
    ensures SortedByValue(r)
    ensures multiset(r) == multiset(s) + multiset{x}
  {
    if s == [] || x.1.value <= s[0].1.value then
      PrependSorted(x, s);
      [x] + s
    else
      var rest := Insert(x, s[1..]);
      assert s == [s[0]] + s[1..];
      HeadBelowRest(s[0], x, s[1..], rest);
      [s[0]] + rest
  }

  /** An entry not above the head of a sorted sequence keeps it sorted when put in front. */
  lemma PrependSorted(h: NamedNumber, s: seq<NamedNumber>)
    requires SortedByValue(s) && (s == [] || h.1.value <= s[0].1.value)
    ensures SortedByValue([h] + s)
  {
    var t := [h] + s;
    forall i, j | 0 <= i < j < |t| ensures t[i].1.value <= t[j].1.value {
      if i > 0 {
        assert t[i] == s[i - 1] && t[j] == s[j - 1];
      } else if j > 1 {
        assert t[j] == s[j - 1];
      }
    }
  }

  /** An entry below `x` and below every entry of `s` stays sorted before any permutation of `s` with `x`. */
  lemma HeadBelowRest(h: NamedNumber, x: NamedNumber, s: seq<NamedNumber>, rest: seq<NamedNumber>)
    requires h.1.value <= x.1.value && forall e :: e in s ==> h.1.value <= e.1.value
    requires SortedByValue(rest) && multiset(rest) == multiset(s) + multiset{x}
    ensures SortedByValue([h] + rest)
  {
    if rest != [] {
      assert rest[0] in multiset(rest);
    }
    PrependSorted(h, rest);
  }

  /** `sorted(by: { $0.value < $1.value })`: ascending by value, a permutation of the input. */
  function SortByValue(s: seq<NamedNumber>): (r: seq<NamedNumber>)
    ensures SortedByValue(r)
    ensures multiset(r) == multiset(s)
  {
    if s == [] then []
    else
      assert s == [s[0]] + s[1..];
      Insert(s[0], SortByValue(s[1..]))
  }

  /** `order` lists the keys of `data`, each once: the dictionary's iteration order. */
  predicate Enumerates(order: seq<string>, data: map<string, NumberInfo>)
  {
    (forall i, j :: 0 <= i < j < |order| ==> order[i] != order[j]) &&
    (forall k :: k in data ==> k in order) &&
    (forall i :: 0 <= i < |order| ==> order[i] in data)
  }

  function Listing(order: seq<string>, data: map<string, NumberInfo>): (r: seq<NamedNumber>)
    requires forall k :: k in order ==> k in data
    ensures |r| == |order| && forall i :: 0 <= i < |order| ==> r[i] == (order[i], data[order[i]])
  {
    seq(|order|, i requires 0 <= i < |order| => (order[i], data[order[i]]))
  }

  /** A number constant: the token name it comes from and its value. */
  datatype NumberConstant = NumberConstant(key: string, value: real)
  {
    /** `generateNumberVariable`: the Swift name goes through `sanitizeNumberVariableName`. */
    function Name(): string
    {
      SanitizeNumberVariableName(key)
    }
  }

  function NumberVariable(e: NamedNumber): NumberConstant
  {
    NumberConstant(e.0, e.1.value)
  }

  function NumberVariables(s: seq<NamedNumber>): (r: seq<NumberConstant>)
    ensures |r| == |s| && forall i :: 0 <= i < |s| ==> r[i] == NumberVariable(s[i])
  {
    seq(|s|, i requires 0 <= i < |s| => NumberVariable(s[i]))
  }

  /** `c` is the constant of one of the tokens of `data`. */
  ghost predicate ComesFrom(c: NumberConstant, data: map<string, NumberInfo>)
  {
    exists k :: k in data && c == NumberVariable((k, data[k]))
  }

  datatype NumberEnum = NumberEnum(name: string, constants: seq<NumberConstant>)

  /**
   * `generateNumberTopLevelEnum`: the enum named by the input's identifier,
   * holding one constant per token, in ascending order of value.
   */
  function GenerateNumberTopLevelEnum(input: NumberInput, order: seq<string>): (r: NumberEnum)
    requires Enumerates(order, input.data)
    ensures r.name == input.Identifier()
    ensures |r.constants| == |order|
    ensures forall i, j :: 0 <= i < j < |r.constants| ==> r.constants[i].value <= r.constants[j].value
    ensures forall k :: k in input.data ==> exists i :: 0 <= i < |r.constants| && r.constants[i] == NumberVariable((k, input.data[k]))
    ensures forall i :: 0 <= i < |r.constants| ==> ComesFrom(r.constants[i], input.data)
  {
    var sorted := SortByValue(Listing(order, input.data));
    SortedListing(order, input.data, sorted);
    ConstantsOfSorted(input.data, sorted);
    NumberEnum(input.Identifier(), NumberVariables(sorted))
  }

  /** The constants of a sorted listing are in order and are those of the dictionary's entries. */
  lemma ConstantsOfSorted(data: map<string, NumberInfo>, sorted: seq<NamedNumber>)
    requires SortedByValue(sorted)
    requires forall k :: k in data ==> (k, data[k]) in sorted
    requires forall e :: e in sorted ==> e.0 in data && e.1 == data[e.0]
    ensures forall i, j :: 0 <= i < j < |sorted| ==> NumberVariables(sorted)[i].value <= NumberVariables(sorted)[j].value
    ensures forall k :: k in data ==> exists i :: 0 <= i < |sorted| && NumberVariables(sorted)[i] == NumberVariable((k, data[k]))
    ensures forall i :: 0 <= i < |sorted| ==> ComesFrom(NumberVariables(sorted)[i], data)
  {
    var r := NumberVariables(sorted);
    forall k | k in data ensures exists i :: 0 <= i < |r| && r[i] == NumberVariable((k, data[k])) {
      var i :| 0 <= i < |sorted| && sorted[i] == (k, data[k]);
      assert r[i] == NumberVariable(sorted[i]);
    }
    forall i | 0 <= i < |sorted| ensures ComesFrom(r[i], data) {
      assert sorted[i] in sorted;
      var key := sorted[i].0;
      assert key in data && sorted[i] == (key, data[key]);
      assert r[i] == NumberVariable((key, data[key]));
    }
  }

  /** A sorted listing holds exactly the dictionary's entries. */
  lemma SortedListing(order: seq<string>, data: map<string, NumberInfo>, sorted: seq<NamedNumber>)
    requires Enumerates(order, data)
    requires multiset(sorted) == multiset(Listing(order, data))
    ensures |sorted| == |order|
    ensures forall k :: k in data ==> (k, data[k]) in sorted
    ensures forall e :: e in sorted ==> e.0 in data && e.1 == data[e.0]
  {
    var listing := Listing(order, data);
    assert |sorted| == |multiset(sorted)| == |listing|;
    forall k | k in data ensures (k, data[k]) in sorted {
      var i :| 0 <= i < |order| && order[i] == k;
      assert listing[i] == (k, data[k]);
      assert (k, data[k]) in multiset(listing);
    }
    forall e | e in sorted ensures e.0 in data && e.1 == data[e.0] {
      assert e in multiset(listing);
      var i :| 0 <= i < |listing| && listing[i] == e;
    }
  }
}
