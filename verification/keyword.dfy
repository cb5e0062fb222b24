/**
 * A schema keyword and its builder (org.eel.kitchen.jsonschema.bundle.Keyword).
 *
 * A keyword is an immutable record: a name, an optional syntax checker and an
 * optional keyword validator class. Checkers and validator classes are opaque
 * in this model, so each is a closed tag datatype rather than an object.
 */
module Keywords {
  import opened Wrappers

  /** The primitive JSON node types a simple syntax checker accepts. */
  datatype NodeType = ArrayType | BooleanType | IntegerType | NumberType | NullType | ObjectType | StringType

  /**
   * The syntax checkers of the draft v3 vocabulary. The four parameterised
   * kinds carry the keyword name they were constructed with; the others are
   * singletons.
   */
  datatype SyntaxChecker =
    | Simple(keyword: string, types: set<NodeType>)
    | TypeKeyword(keyword: string)
    | Uri(keyword: string)
    | PositiveInteger(keyword: string)
    | DependenciesChecker
    | DivisibleByChecker
    | EnumChecker
    | ExclusiveMinimumChecker
    | ExclusiveMaximumChecker
    | ExtendsChecker
    | ItemsChecker
    | PatternChecker
    | PatternPropertiesChecker
    | PropertiesChecker
  {
    /** True for the checkers constructed with a keyword name. */
    predicate IsNamed() {
      Simple? || TypeKeyword? || Uri? || PositiveInteger?
    }
  }

  /** The keyword validator classes, as tags instead of reflected classes. */
  datatype ValidatorClass =
    | AdditionalItemsValidator
    | AdditionalPropertiesValidator
    | DependenciesValidator
    | DisallowValidator
    | DivisibleByValidator
    | EnumValidator
    | ExtendsValidator
    | FormatValidator
    | MaxItemsValidator
    | MaxLengthValidator
    | MaximumValidator
    | MinItemsValidator
    | MinLengthValidator
    | MinimumValidator
    | PatternValidator
    | PropertiesValidator
    | TypeValidator
    | UniqueItemsValidator

  /** A built keyword; its fields are what the getters return. */
  datatype Keyword = Keyword(name: string, syntaxChecker: Option<SyntaxChecker>, validatorClass: Option<ValidatorClass>)

  /** The state of a Keyword.Builder: a fixed name and two settable fields. */
  datatype Builder = Builder(keyword: string, syntaxChecker: Option<SyntaxChecker>, validatorClass: Option<ValidatorClass>)

  const NullNameMessage: string := "keyword name must not be null"

  /** Builder.forKeyword: a null name is rejected, any other name starts an empty builder. */
  function ForKeyword(name: Option<string>): (r: Result<Builder>)
    ensures r.Success? <==> name.Some?
    ensures r.Failure? ==> r.error == NullNameMessage
    ensures r.Success? ==> r.value.keyword == name.value
    ensures r.Success? ==> r.value.syntaxChecker == None && r.value.validatorClass == None
  {
    match name
    case None => Failure(NullNameMessage)
    case Some(n) => Success(Builder(n, None, None))
  }

  /** Builder.withSyntaxChecker: overwrites the checker (null clears it) and returns the builder. */
  function WithSyntaxChecker(b: Builder, checker: Option<SyntaxChecker>): (r: Builder)
    ensures r.syntaxChecker == checker
    ensures r.keyword == b.keyword && r.validatorClass == b.validatorClass
  {
    b.(syntaxChecker := checker)
  }

  /** Builder.withValidatorClass: overwrites the validator class and returns the builder. */
  function WithValidatorClass(b: Builder, validator: Option<ValidatorClass>): (r: Builder)
    ensures r.validatorClass == validator
    ensures r.keyword == b.keyword && r.syntaxChecker == b.syntaxChecker
  {
    b.(validatorClass := validator)
  }

  /** Builder.build: a keyword whose getters return the builder's current fields. */
  function Build(b: Builder): (k: Keyword)
    ensures k.name == b.keyword
    ensures k.syntaxChecker == b.syntaxChecker
    ensures k.validatorClass == b.validatorClass
  {
    Keyword(b.keyword, b.syntaxChecker, b.validatorClass)
  }

  /** One setter call on a builder. */
  datatype BuilderCall = SetSyntaxChecker(checker: Option<SyntaxChecker>) | SetValidatorClass(validator: Option<ValidatorClass>)

  /** Applies a chain of setter calls, first to last, as fluent Java code does. */
  function Apply(b: Builder, calls: seq<BuilderCall>): Builder
    decreases |calls|
  {
    if calls == [] then b
    else
      var next := match calls[0]
        case SetSyntaxChecker(c) => WithSyntaxChecker(b, c)
        case SetValidatorClass(v) => WithValidatorClass(b, v);
      Apply(next, calls[1..])
  }

  /** The checker set by the last SetSyntaxChecker in calls, or initial if there is none. */
  function LastChecker(calls: seq<BuilderCall>, initial: Option<SyntaxChecker>): Option<SyntaxChecker>
    decreases |calls|
  {
    if calls == [] then initial
    else if calls[|calls| - 1].SetSyntaxChecker? then calls[|calls| - 1].checker
    else LastChecker(calls[..|calls| - 1], initial)
  }

  /** The validator class set by the last SetValidatorClass in calls, or initial if there is none. */
  function LastValidator(calls: seq<BuilderCall>, initial: Option<ValidatorClass>): Option<ValidatorClass>
    decreases |calls|
  {
    if calls == [] then initial
    else if calls[|calls| - 1].SetValidatorClass? then calls[|calls| - 1].validator
    else LastValidator(calls[..|calls| - 1], initial)
  }

  /** Applying calls then one more call is applying that call to the result. */
  lemma {:induction false} ApplySnoc(b: Builder, calls: seq<BuilderCall>, last: BuilderCall)
    ensures Apply(b, calls + [last]) == Apply(Apply(b, calls), [last])
    decreases |calls|
  {
    if calls == [] {
      assert calls + [last] == [last];
    } else {
      var next := match calls[0]
        case SetSyntaxChecker(c) => WithSyntaxChecker(b, c)
        case SetValidatorClass(v) => WithValidatorClass(b, v);
      assert (calls + [last])[0] == calls[0];
      assert (calls + [last])[1..] == calls[1..] + [last];
      ApplySnoc(next, calls[1..], last);
    }
  }

  /**
   * Every setter overwrites the previous value: after any chain of calls the
   * builder holds the last checker and the last validator class set, and the
   * name it was created with.
   */
  lemma {:induction false} LastWriteWins(b: Builder, calls: seq<BuilderCall>)
    ensures Apply(b, calls).keyword == b.keyword
    ensures Apply(b, calls).syntaxChecker == LastChecker(calls, b.syntaxChecker)
    ensures Apply(b, calls).validatorClass == LastValidator(calls, b.validatorClass)
    decreases |calls|
  {
    if calls != [] {
      var init := calls[..|calls| - 1];
      var last := calls[|calls| - 1];
      assert calls == init + [last];
      ApplySnoc(b, init, last);
      LastWriteWins(b, init);
    }
  }

  /**
   * The chain `forKeyword(n).withSyntaxChecker(c).withValidatorClass(v).build()`
   * yields a keyword whose getters return exactly n, c and v, in either order
   * of the two setters; leaving a setter out leaves its field absent.
   */
  lemma BuiltKeywordGetters(n: string, c: Option<SyntaxChecker>, v: Option<ValidatorClass>)
    ensures ForKeyword(Some(n)).Success?
    ensures Build(WithValidatorClass(WithSyntaxChecker(ForKeyword(Some(n)).value, c), v)) == Keyword(n, c, v)
    ensures Build(WithSyntaxChecker(WithValidatorClass(ForKeyword(Some(n)).value, v), c)) == Keyword(n, c, v)
    ensures Build(WithSyntaxChecker(ForKeyword(Some(n)).value, c)) == Keyword(n, c, None)
    ensures Build(WithValidatorClass(ForKeyword(Some(n)).value, v)) == Keyword(n, None, v)
  {
  }

  /**
   * build() takes a snapshot: setter calls made on the builder afterwards
   * produce new builder states and leave the built keyword as it was, while a
   * later build() sees them.
   */
  lemma {:induction false} BuildIsSnapshot(b: Builder, calls: seq<BuilderCall>)
    ensures var k := Build(b);
      var k' := Build(Apply(b, calls));
      k.name == k'.name
      && k'.syntaxChecker == LastChecker(calls, k.syntaxChecker)
      && k'.validatorClass == LastValidator(calls, k.validatorClass)
  {
    LastWriteWins(b, calls);
  }
}
