/**
 * The draft v3 default keyword bundle (org.eel.kitchen.jsonschema.bundle.KeywordBundles).
 *
 * KeywordBundle itself is not part of this model. It is taken to be a map
 * from keyword name to keyword: registering inserts (or replaces) the entry
 * under the keyword's name, and copying takes a value snapshot.
 */
module KeywordBundles {
  import opened Wrappers
  import opened Keywords

  /** A keyword bundle: lookup by name is the only access path. */
  type Bundle = map<string, Keyword>

  /** KeywordBundle.registerKeyword: last registration under a name wins. */
  function Register(bundle: Bundle, k: Keyword): (r: Bundle)
    ensures r.Keys == bundle.Keys + {k.name}
    ensures r[k.name] == k
    ensures forall n :: n in bundle && n != k.name ==> n in r && r[n] == bundle[n]
  {
    bundle[k.name := k]
  }

  /** KeywordBundle.copy: an independent snapshot with the same entries. */
  function Copy(bundle: Bundle): (r: Bundle)
    ensures r.Keys == bundle.Keys
    ensures forall n :: n in r ==> r[n] == bundle[n]
  {
    bundle
  }

  /** Registers every keyword of ks, in order, into bundle. */
  function RegisterAll(bundle: Bundle, ks: seq<Keyword>): Bundle
    decreases |ks|
  {
    if ks == [] then bundle else RegisterAll(Register(bundle, ks[0]), ks[1..])
  }

  /** The names of ks, in order. */
  function Names(ks: seq<Keyword>): (r: seq<string>)
    ensures |r| == |ks|
    ensures forall i :: 0 <= i < |ks| ==> r[i] == ks[i].name
  {
    if ks == [] then [] else [ks[0].name] + Names(ks[1..])
  }

  /** No two keywords of ks share a name. */
  predicate DistinctNames(ks: seq<Keyword>) {
    forall i, j :: 0 <= i < j < |ks| ==> ks[i].name != ks[j].name
  }

  /** The number of keywords the static initialiser registers. */
  const DefaultCount: nat := 28

  /** The name registered by row i of the static initialiser. */
  function NameAt(i: nat): string
    requires i < DefaultCount
  {
    if i == 0 then "additionalItems"
    else if i == 1 then "additionalProperties"
    else if i == 2 then "dependencies"
    else if i == 3 then "description"
    else if i == 4 then "disallow"
    else if i == 5 then "divisibleBy"
    else if i == 6 then "enum"
    else if i == 7 then "exclusiveMinimum"
    else if i == 8 then "exclusiveMaximum"
    else if i == 9 then "extends"
    else if i == 10 then "format"
    else if i == 11 then "id"
    else if i == 12 then "items"
    else if i == 13 then "maximum"
    else if i == 14 then "maxItems"
    else if i == 15 then "maxLength"
    else if i == 16 then "minimum"
    else if i == 17 then "minItems"
    else if i == 18 then "minLength"
    else if i == 19 then "pattern"
    else if i == 20 then "patternProperties"
    else if i == 21 then "properties"
    else if i == 22 then "required"
    else if i == 23 then "title"
    else if i == 24 then "type"
    else if i == 25 then "uniqueItems"
    else if i == 26 then "$ref"
    else "$schema"
  }

  /**
   * One `register(...)` argument of the static initialiser:
   * `forKeyword(name).withSyntaxChecker(checker)`, then
   * `.withValidatorClass(v)` where the row has one, then `.build()`.
   * The keyword it builds has exactly that name, checker and validator class.
   */
  function Row(name: string, checker: SyntaxChecker, v: Option<ValidatorClass>): (k: Keyword)
    ensures k == Keyword(name, Some(checker), v)
  {
    var b := WithSyntaxChecker(ForKeyword(Some(name)).value, Some(checker));
    if v.Some? then Build(WithValidatorClass(b, v)) else Build(b)
  }

  /** Row i of the static initialiser, in registration order. */
  function RowAt(i: nat): Keyword
    requires i < DefaultCount
  {
    if i == 0 then Row("additionalItems", Simple("additionalItems", {BooleanType, ObjectType}), Some(AdditionalItemsValidator))
    else if i == 1 then Row("additionalProperties", Simple("additionalProperties", {BooleanType, ObjectType}), Some(AdditionalPropertiesValidator))
    else if i == 2 then Row("dependencies", DependenciesChecker, Some(DependenciesValidator))
    else if i == 3 then Row("description", Simple("description", {StringType}), None)
    else if i == 4 then Row("disallow", TypeKeyword("disallow"), Some(DisallowValidator))
    else if i == 5 then Row("divisibleBy", DivisibleByChecker, Some(DivisibleByValidator))
    else if i == 6 then Row("enum", EnumChecker, Some(EnumValidator))
    else if i == 7 then Row("exclusiveMinimum", ExclusiveMinimumChecker, None)
    else if i == 8 then Row("exclusiveMaximum", ExclusiveMaximumChecker, None)
    else if i == 9 then Row("extends", ExtendsChecker, Some(ExtendsValidator))
    else if i == 10 then Row("format", Simple("format", {StringType}), Some(FormatValidator))
    else if i == 11 then Row("id", Uri("id"), None)
    else if i == 12 then Row("items", ItemsChecker, None)
    else if i == 13 then Row("maximum", Simple("maximum", {IntegerType, NumberType}), Some(MaximumValidator))
    else if i == 14 then Row("maxItems", PositiveInteger("maxItems"), Some(MaxItemsValidator))
    else if i == 15 then Row("maxLength", PositiveInteger("maxLength"), Some(MaxLengthValidator))
    else if i == 16 then Row("minimum", Simple("minimum", {IntegerType, NumberType}), Some(MinimumValidator))
    else if i == 17 then Row("minItems", PositiveInteger("minItems"), Some(MinItemsValidator))
    else if i == 18 then Row("minLength", PositiveInteger("minLength"), Some(MinLengthValidator))
    else if i == 19 then Row("pattern", PatternChecker, Some(PatternValidator))
    else if i == 20 then Row("patternProperties", PatternPropertiesChecker, None)
    else if i == 21 then Row("properties", PropertiesChecker, Some(PropertiesValidator))
    else if i == 22 then Row("required", Simple("required", {BooleanType}), None)
    else if i == 23 then Row("title", Simple("title", {StringType}), None)
    else if i == 24 then Row("type", TypeKeyword("type"), Some(TypeValidator))
    else if i == 25 then Row("uniqueItems", Simple("uniqueItems", {BooleanType}), Some(UniqueItemsValidator))
    else if i == 26 then Row("$ref", Uri("$ref"), None)
    else Row("$schema", Uri("$schema"), None)
  }

  /** The keywords registered by the static initialiser, in registration order. */
  function DefaultKeywords(): (ks: seq<Keyword>)
    ensures |ks| == DefaultCount
    ensures forall i :: 0 <= i < DefaultCount ==> ks[i] == RowAt(i)
  {
    seq(DefaultCount, i requires 0 <= i < DefaultCount => RowAt(i))
  }

  /** The static DEFAULT_BUNDLE: every default keyword registered into an empty bundle. */
  function DefaultTable(): Bundle {
    RegisterAll(map[], DefaultKeywords())
  }

  /** KeywordBundles.defaultBundle: a copy of the static bundle. */
  function DefaultBundle(): Bundle {
    Copy(DefaultTable())
  }

  /** The set of names of ks. */
  function NameSet(ks: seq<Keyword>): (r: set<string>)
    ensures forall i :: 0 <= i < |ks| ==> ks[i].name in r
    ensures forall n :: n in r ==> exists i :: 0 <= i < |ks| && ks[i].name == n
    decreases |ks|
  {
    if ks == [] then {} else {ks[0].name} + NameSet(ks[1..])
  }

  /** Dropping the first keyword keeps the rest pairwise distinct. */
  lemma DistinctTail(ks: seq<Keyword>)
    requires ks != [] && DistinctNames(ks)
    ensures DistinctNames(ks[1..])
    ensures ks[0].name !in NameSet(ks[1..])
  {
    var rest := ks[1..];
    forall i, j | 0 <= i < j < |rest| ensures rest[i].name != rest[j].name {
      assert rest[i] == ks[i + 1] && rest[j] == ks[j + 1];
    }
  }

  /**
   * Registering keywords with pairwise-distinct names adds exactly those
   * names, stores each keyword under its own name, and leaves every other
   * entry as it was.
   */
  lemma {:induction false} RegisterAllContents(bundle: Bundle, ks: seq<Keyword>)
    requires DistinctNames(ks)
    ensures RegisterAll(bundle, ks).Keys == bundle.Keys + NameSet(ks)
    ensures forall i :: 0 <= i < |ks| ==> RegisterAll(bundle, ks)[ks[i].name] == ks[i]
    ensures forall n :: n in bundle && n !in NameSet(ks) ==> RegisterAll(bundle, ks)[n] == bundle[n]
    decreases |ks|
  {
    if ks != [] {
      var rest := ks[1..];
      DistinctTail(ks);
      RegisterAllContents(Register(bundle, ks[0]), rest);
      forall i | 0 < i < |ks| ensures RegisterAll(bundle, ks)[ks[i].name] == ks[i] {
        assert rest[i - 1] == ks[i];
      }
    }
  }

  /** A sequence of pairwise-distinct names has as many distinct names as entries. */
  lemma {:induction false} DistinctNamesCount(ks: seq<Keyword>)
    requires DistinctNames(ks)
    ensures |NameSet(ks)| == |ks|
    decreases |ks|
  {
    if ks != [] {
      DistinctTail(ks);
      DistinctNamesCount(ks[1..]);
    }
  }

  /** Every entry registered from ks is a row of ks stored under its name, or was there before. */
  lemma {:induction false} RegisteredRows(bundle: Bundle, ks: seq<Keyword>, n: string)
    requires n in RegisterAll(bundle, ks)
    ensures (n in bundle && RegisterAll(bundle, ks)[n] == bundle[n])
      || exists i :: 0 <= i < |ks| && ks[i].name == n && RegisterAll(bundle, ks)[n] == ks[i]
    decreases |ks|
  {
    if ks != [] {
      var rest := ks[1..];
      RegisteredRows(Register(bundle, ks[0]), rest, n);
      if exists i :: 0 <= i < |rest| && rest[i].name == n && RegisterAll(bundle, ks)[n] == rest[i] {
        var i :| 0 <= i < |rest| && rest[i].name == n && RegisterAll(bundle, ks)[n] == rest[i];
        assert ks[i + 1] == rest[i];
      }
    }
  }

  /** Two rows of the static initialiser never register the same name. */
  lemma NamesDistinct(i: nat, j: nat)
    requires i < j < DefaultCount
    ensures NameAt(i) != NameAt(j)
  {
    if |NameAt(i)| == |NameAt(j)| { }
  }

  /** Equal names come from the same row. */
  lemma NameAtInjective()
    ensures forall i, j :: 0 <= i < DefaultCount && 0 <= j < DefaultCount && NameAt(i) == NameAt(j) ==> i == j
  {
    forall i, j | 0 <= i < DefaultCount && 0 <= j < DefaultCount && NameAt(i) == NameAt(j) ensures i == j {
      if i < j { NamesDistinct(i, j); } else if j < i { NamesDistinct(j, i); }
    }
  }

  /** The default table holds 28 keywords with pairwise-distinct names. */
  lemma DefaultNamesDistinct()
    ensures |DefaultKeywords()| == 28
    ensures DistinctNames(DefaultKeywords())
  {
    var ks := DefaultKeywords();
    forall i, j | 0 <= i < j < |ks| ensures ks[i].name != ks[j].name {
      RowFacts(i);
      RowFacts(j);
      NamesDistinct(i, j);
    }
  }

  /** The default bundle has exactly 28 entries, one per row of the table. */
  lemma DefaultBundleSize()
    ensures DefaultBundle().Keys == NameSet(DefaultKeywords())
    ensures |DefaultBundle()| == 28
  {
    DefaultNamesDistinct();
    RegisteredCount(DefaultKeywords());
  }

  /** Registering n keywords with distinct names into an empty bundle gives n entries. */
  lemma RegisteredCount(ks: seq<Keyword>)
    requires DistinctNames(ks)
    ensures RegisterAll(map[], ks).Keys == NameSet(ks)
    ensures |RegisterAll(map[], ks)| == |ks|
  {
    RegisterAllContents(map[], ks);
    DistinctNamesCount(ks);
    assert |RegisterAll(map[], ks)| == |RegisterAll(map[], ks).Keys|;
  }

  /** Rows registered without a validator class. */
  const NoValidatorRows: set<nat> := {3, 7, 8, 11, 12, 20, 22, 23, 26, 27}
  /** Rows whose checker is a SimpleSyntaxChecker. */
  const SimpleRows: set<nat> := {0, 1, 3, 10, 13, 16, 22, 23, 25}
  /** Rows whose checker is a TypeKeywordSyntaxChecker. */
  const TypeRows: set<nat> := {4, 24}
  /** Rows whose checker is a URISyntaxChecker. */
  const UriRows: set<nat> := {11, 26, 27}
  /** Rows whose checker is a PositiveIntegerSyntaxChecker. */
  const PositiveIntegerRows: set<nat> := {14, 15, 17, 18}

  /** Each row registers its own name. */
  lemma RowName(i: nat)
    requires i < DefaultCount
    ensures RowAt(i).name == NameAt(i)
  {
  }

  /** Each row has a checker, and a checker that takes a keyword name is given the row's own. */
  lemma RowChecker(i: nat)
    requires i < DefaultCount
    ensures RowAt(i).syntaxChecker.Some?
    ensures RowAt(i).syntaxChecker.value.IsNamed() ==> RowAt(i).syntaxChecker.value.keyword == NameAt(i)
  {
    if i < 14 {
    } else {
    }
  }

  /** Each row registers its own name, with a checker that carries that name where it takes one. */
  lemma RowFacts(i: nat)
    requires i < DefaultCount
    ensures RowAt(i).name == NameAt(i)
    ensures RowAt(i).syntaxChecker.Some?
    ensures RowAt(i).syntaxChecker.value.IsNamed() ==> RowAt(i).syntaxChecker.value.keyword == NameAt(i)
  {
    RowName(i);
    RowChecker(i);
  }

  /** Which rows lack a validator class. */
  lemma RowValidator(i: nat)
    requires i < DefaultCount
    ensures RowAt(i).validatorClass.None? <==> i in NoValidatorRows
  {
  }

  /** Which rows use a simple checker, and which the type-keyword checker. */
  lemma RowSimpleOrType(i: nat)
    requires i < DefaultCount
    ensures RowAt(i).syntaxChecker.Some?
    ensures RowAt(i).syntaxChecker.value.Simple? <==> i in SimpleRows
    ensures RowAt(i).syntaxChecker.value.TypeKeyword? <==> i in TypeRows
  {
  }

  /** Which rows use the URI checker, and which the positive-integer checker. */
  lemma RowUriOrPositive(i: nat)
    requires i < DefaultCount
    ensures RowAt(i).syntaxChecker.Some?
    ensures RowAt(i).syntaxChecker.value.Uri? <==> i in UriRows
    ensures RowAt(i).syntaxChecker.value.PositiveInteger? <==> i in PositiveIntegerRows
  {
  }

  /** The names of the keywords registered without a validator class. */
  const NoValidatorNames: set<string> := {"description", "exclusiveMinimum", "exclusiveMaximum", "id", "items", "patternProperties", "required", "title", "$ref", "$schema"}
  /** The keywords checked by a SimpleSyntaxChecker. */
  const SimpleNames: set<string> := {"additionalItems", "additionalProperties", "description", "format", "maximum", "minimum", "required", "title", "uniqueItems"}
  /** The keywords checked by a TypeKeywordSyntaxChecker. */
  const TypeNames: set<string> := {"disallow", "type"}
  /** The keywords checked by a URISyntaxChecker. */
  const UriNames: set<string> := {"id", "$ref", "$schema"}
  /** The keywords checked by a PositiveIntegerSyntaxChecker. */
  const PositiveIntegerNames: set<string> := {"maxItems", "maxLength", "minItems", "minLength"}

  /** The names registered by a set of rows. */
  function RowNames(rows: set<nat>): set<string> {
    set i | i in rows && i < DefaultCount :: NameAt(i)
  }

  /** A row's name is among the names of some rows exactly when the row is one of them. */
  lemma RowNamesMember(rows: set<nat>, i: nat)
    requires i < DefaultCount
    ensures NameAt(i) in RowNames(rows) <==> i in rows
  {
    NameAtInjective();
  }

  /** The name sets above are exactly the names of the corresponding rows. */
  lemma NoValidatorNamesMatch()
    ensures NoValidatorNames == RowNames(NoValidatorRows)
  {
    assert NameAt(3) == "description" && NameAt(7) == "exclusiveMinimum" && NameAt(8) == "exclusiveMaximum";
    assert NameAt(11) == "id" && NameAt(12) == "items" && NameAt(20) == "patternProperties";
    assert NameAt(22) == "required" && NameAt(23) == "title" && NameAt(26) == "$ref";
    assert NameAt(27) == "$schema";
  }

  lemma SimpleNamesMatch()
    ensures SimpleNames == RowNames(SimpleRows)
  {
    assert NameAt(0) == "additionalItems" && NameAt(1) == "additionalProperties";
    assert NameAt(3) == "description" && NameAt(10) == "format" && NameAt(13) == "maximum";
    assert NameAt(16) == "minimum" && NameAt(22) == "required" && NameAt(23) == "title";
    assert NameAt(25) == "uniqueItems";
  }

  lemma KindNamesMatch()
    ensures TypeNames == RowNames(TypeRows)
    ensures UriNames == RowNames(UriRows)
    ensures PositiveIntegerNames == RowNames(PositiveIntegerRows)
  {
    assert NameAt(4) == "disallow" && NameAt(24) == "type";
    assert NameAt(11) == "id" && NameAt(26) == "$ref" && NameAt(27) == "$schema";
    assert NameAt(14) == "maxItems" && NameAt(15) == "maxLength" && NameAt(17) == "minItems";
    assert NameAt(18) == "minLength";
  }

  /** What the draft v3 table promises of one registered keyword, independent of its position. */
  predicate DraftV3Row(k: Keyword) {
    && k.syntaxChecker.Some?
    && (k.syntaxChecker.value.IsNamed() ==> k.syntaxChecker.value.keyword == k.name)
    && (k.validatorClass.None? <==> k.name in NoValidatorNames)
    && (k.syntaxChecker.value.Simple? <==> k.name in SimpleNames)
    && (k.syntaxChecker.value.TypeKeyword? <==> k.name in TypeNames)
    && (k.syntaxChecker.value.Uri? <==> k.name in UriNames)
    && (k.syntaxChecker.value.PositiveInteger? <==> k.name in PositiveIntegerNames)
  }

  /**
   * The default bundle, entry by entry: each keyword is stored under its own
   * name, has a syntax checker, carries its own name in a name-parameterised
   * checker, lacks a validator class exactly when it is one of the ten
   * NoValidatorNames, and has the checker kind the draft v3 table gives it.
   */
  lemma DefaultBundleEntries()
    ensures forall n :: n in DefaultBundle() ==> DefaultBundle()[n].name == n && DraftV3Row(DefaultBundle()[n])
    ensures NoValidatorNames <= DefaultBundle().Keys
  {
    var ks := DefaultKeywords();
    NoValidatorNamesMatch();
    SimpleNamesMatch();
    KindNamesMatch();
    forall n | n in DefaultBundle() ensures DefaultBundle()[n].name == n && DraftV3Row(DefaultBundle()[n]) {
      RegisteredRows(map[], ks, n);
      var i :| 0 <= i < |ks| && ks[i].name == n && DefaultBundle()[n] == ks[i];
      RowFacts(i);
      RowValidator(i);
      RowSimpleOrType(i);
      RowUriOrPositive(i);
      RowNamesMember(NoValidatorRows, i);
      RowNamesMember(SimpleRows, i);
      RowNamesMember(TypeRows, i);
      RowNamesMember(UriRows, i);
      RowNamesMember(PositiveIntegerRows, i);
    }
    forall n | n in NoValidatorNames ensures n in DefaultBundle() {
      var i :| i in NoValidatorRows && i < DefaultCount && NameAt(i) == n;
      RowFacts(i);
      DefaultBundleSize();
    }
  }

  /** ks lists the rows of the static initialiser, in order. */
  predicate DefaultRows(ks: seq<Keyword>) {
    |ks| == DefaultCount && forall i :: 0 <= i < DefaultCount ==> ks[i] == RowAt(i)
  }

  /** Registering the rows stores row i's keyword under row i's name. */
  lemma RowLookup(ks: seq<Keyword>, i: nat)
    requires DefaultRows(ks) && i < DefaultCount
    ensures NameAt(i) in RegisterAll(map[], ks) && RegisterAll(map[], ks)[NameAt(i)] == RowAt(i)
  {
    forall a, b | 0 <= a < b < |ks| ensures ks[a].name != ks[b].name {
      RowFacts(a);
      RowFacts(b);
      NamesDistinct(a, b);
    }
    RegisterAllContents(map[], ks);
    RowFacts(i);
  }

  /** The keywords accepting a boolean or an object: a simple checker over {BOOLEAN, OBJECT}. */
  lemma ObjectOrBooleanCheckersIn(ks: seq<Keyword>)
    requires DefaultRows(ks)
    ensures "additionalItems" in RegisterAll(map[], ks) && RegisterAll(map[], ks)["additionalItems"].syntaxChecker == Some(Simple("additionalItems", {BooleanType, ObjectType}))
    ensures "additionalProperties" in RegisterAll(map[], ks) && RegisterAll(map[], ks)["additionalProperties"].syntaxChecker == Some(Simple("additionalProperties", {BooleanType, ObjectType}))
  {
    assert NameAt(0) == "additionalItems" && NameAt(1) == "additionalProperties";
    RowLookup(ks, 0); RowLookup(ks, 1);
  }

  /** The keywords accepting a string: a simple checker over {STRING}. */
  lemma StringCheckersIn(ks: seq<Keyword>)
    requires DefaultRows(ks)
    ensures "description" in RegisterAll(map[], ks) && RegisterAll(map[], ks)["description"].syntaxChecker == Some(Simple("description", {StringType}))
    ensures "format" in RegisterAll(map[], ks) && RegisterAll(map[], ks)["format"].syntaxChecker == Some(Simple("format", {StringType}))
    ensures "title" in RegisterAll(map[], ks) && RegisterAll(map[], ks)["title"].syntaxChecker == Some(Simple("title", {StringType}))
  {
    assert NameAt(3) == "description" && NameAt(10) == "format" && NameAt(23) == "title";
    RowLookup(ks, 3); RowLookup(ks, 10); RowLookup(ks, 23);
  }

  /** The keywords accepting a number: a simple checker over {INTEGER, NUMBER}. */
  lemma NumberCheckersIn(ks: seq<Keyword>)
    requires DefaultRows(ks)
    ensures "maximum" in RegisterAll(map[], ks) && RegisterAll(map[], ks)["maximum"].syntaxChecker == Some(Simple("maximum", {IntegerType, NumberType}))
    ensures "minimum" in RegisterAll(map[], ks) && RegisterAll(map[], ks)["minimum"].syntaxChecker == Some(Simple("minimum", {IntegerType, NumberType}))
  {
    assert NameAt(13) == "maximum" && NameAt(16) == "minimum";
    RowLookup(ks, 13); RowLookup(ks, 16);
  }

  /** The keywords accepting a boolean: a simple checker over {BOOLEAN}. */
  lemma BooleanCheckersIn(ks: seq<Keyword>)
    requires DefaultRows(ks)
    ensures "required" in RegisterAll(map[], ks) && RegisterAll(map[], ks)["required"].syntaxChecker == Some(Simple("required", {BooleanType}))
    ensures "uniqueItems" in RegisterAll(map[], ks) && RegisterAll(map[], ks)["uniqueItems"].syntaxChecker == Some(Simple("uniqueItems", {BooleanType}))
  {
    assert NameAt(22) == "required" && NameAt(25) == "uniqueItems";
    RowLookup(ks, 22); RowLookup(ks, 25);
  }

  /** type and disallow use the type-keyword checker, built with their own names. */
  lemma TypeCheckersIn(ks: seq<Keyword>)
    requires DefaultRows(ks)
    ensures "type" in RegisterAll(map[], ks) && RegisterAll(map[], ks)["type"].syntaxChecker == Some(TypeKeyword("type"))
    ensures "disallow" in RegisterAll(map[], ks) && RegisterAll(map[], ks)["disallow"].syntaxChecker == Some(TypeKeyword("disallow"))
  {
    assert NameAt(24) == "type" && NameAt(4) == "disallow";
    RowLookup(ks, 24); RowLookup(ks, 4);
  }

  /** id uses the URI checker, built with its own name. */
  lemma IdCheckerIn(ks: seq<Keyword>)
    requires DefaultRows(ks)
    ensures "id" in RegisterAll(map[], ks) && RegisterAll(map[], ks)["id"].syntaxChecker == Some(Uri("id"))
  {
    assert NameAt(11) == "id";
    RowLookup(ks, 11);
  }

  /** $ref and $schema use the URI checker, built with their own names. */
  lemma RefCheckersIn(ks: seq<Keyword>)
    requires DefaultRows(ks)
    ensures "$ref" in RegisterAll(map[], ks) && RegisterAll(map[], ks)["$ref"].syntaxChecker == Some(Uri("$ref"))
    ensures "$schema" in RegisterAll(map[], ks) && RegisterAll(map[], ks)["$schema"].syntaxChecker == Some(Uri("$schema"))
  {
    assert NameAt(26) == "$ref" && NameAt(27) == "$schema";
    RowLookup(ks, 26); RowLookup(ks, 27);
  }

  /** maxItems and maxLength use the positive-integer checker, built with their own names. */
  lemma MaxCheckersIn(ks: seq<Keyword>)
    requires DefaultRows(ks)
    ensures "maxItems" in RegisterAll(map[], ks) && RegisterAll(map[], ks)["maxItems"].syntaxChecker == Some(PositiveInteger("maxItems"))
    ensures "maxLength" in RegisterAll(map[], ks) && RegisterAll(map[], ks)["maxLength"].syntaxChecker == Some(PositiveInteger("maxLength"))
  {
    assert NameAt(14) == "maxItems" && NameAt(15) == "maxLength";
    RowLookup(ks, 14); RowLookup(ks, 15);
  }

  /** minItems and minLength use the positive-integer checker, built with their own names. */
  lemma MinCheckersIn(ks: seq<Keyword>)
    requires DefaultRows(ks)
    ensures "minItems" in RegisterAll(map[], ks) && RegisterAll(map[], ks)["minItems"].syntaxChecker == Some(PositiveInteger("minItems"))
    ensures "minLength" in RegisterAll(map[], ks) && RegisterAll(map[], ks)["minLength"].syntaxChecker == Some(PositiveInteger("minLength"))
  {
    assert NameAt(17) == "minItems" && NameAt(18) == "minLength";
    RowLookup(ks, 17); RowLookup(ks, 18);
  }

  /**
   * The checkers of the default bundle that take parameters: the type set of
   * each simple checker, and the kind of the type, URI and positive-integer
   * checkers, each constructed with its own keyword's name.
   */
  lemma DefaultBundleCheckers()
    ensures "additionalItems" in DefaultBundle() && DefaultBundle()["additionalItems"].syntaxChecker == Some(Simple("additionalItems", {BooleanType, ObjectType}))
    ensures "additionalProperties" in DefaultBundle() && DefaultBundle()["additionalProperties"].syntaxChecker == Some(Simple("additionalProperties", {BooleanType, ObjectType}))
    ensures "description" in DefaultBundle() && DefaultBundle()["description"].syntaxChecker == Some(Simple("description", {StringType}))
    ensures "format" in DefaultBundle() && DefaultBundle()["format"].syntaxChecker == Some(Simple("format", {StringType}))
    ensures "title" in DefaultBundle() && DefaultBundle()["title"].syntaxChecker == Some(Simple("title", {StringType}))
    ensures "maximum" in DefaultBundle() && DefaultBundle()["maximum"].syntaxChecker == Some(Simple("maximum", {IntegerType, NumberType}))
    ensures "minimum" in DefaultBundle() && DefaultBundle()["minimum"].syntaxChecker == Some(Simple("minimum", {IntegerType, NumberType}))
    ensures "required" in DefaultBundle() && DefaultBundle()["required"].syntaxChecker == Some(Simple("required", {BooleanType}))
    ensures "uniqueItems" in DefaultBundle() && DefaultBundle()["uniqueItems"].syntaxChecker == Some(Simple("uniqueItems", {BooleanType}))
    ensures "type" in DefaultBundle() && DefaultBundle()["type"].syntaxChecker == Some(TypeKeyword("type"))
    ensures "disallow" in DefaultBundle() && DefaultBundle()["disallow"].syntaxChecker == Some(TypeKeyword("disallow"))
    ensures "id" in DefaultBundle() && DefaultBundle()["id"].syntaxChecker == Some(Uri("id"))
    ensures "$ref" in DefaultBundle() && DefaultBundle()["$ref"].syntaxChecker == Some(Uri("$ref"))
    ensures "$schema" in DefaultBundle() && DefaultBundle()["$schema"].syntaxChecker == Some(Uri("$schema"))
    ensures "maxItems" in DefaultBundle() && DefaultBundle()["maxItems"].syntaxChecker == Some(PositiveInteger("maxItems"))
    ensures "maxLength" in DefaultBundle() && DefaultBundle()["maxLength"].syntaxChecker == Some(PositiveInteger("maxLength"))
    ensures "minItems" in DefaultBundle() && DefaultBundle()["minItems"].syntaxChecker == Some(PositiveInteger("minItems"))
    ensures "minLength" in DefaultBundle() && DefaultBundle()["minLength"].syntaxChecker == Some(PositiveInteger("minLength"))
  {
    var ks := DefaultKeywords();
    ObjectOrBooleanCheckersIn(ks);
    StringCheckersIn(ks);
    NumberCheckersIn(ks);
    BooleanCheckersIn(ks);
    TypeCheckersIn(ks);
    IdCheckerIn(ks);
    RefCheckersIn(ks);
    MaxCheckersIn(ks);
    MinCheckersIn(ks);
  }

  /** Registering the same name twice keeps only the second keyword. */
  lemma RegisterOverrides(bundle: Bundle, k1: Keyword, k2: Keyword)
    requires k1.name == k2.name
    ensures Register(Register(bundle, k1), k2) == Register(bundle, k2)
  {
  }

  /**
   * defaultBundle() hands out a copy: whatever a caller registers into the
   * bundle it received, the next defaultBundle() call returns the static
   * table unchanged.
   */
  lemma DefaultBundleIsCopy(k: Keyword)
    ensures var mine := Register(DefaultBundle(), k);
      mine[k.name] == k && DefaultBundle() == DefaultTable()
  {
  }
}
