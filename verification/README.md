# json-schema-validator core, modelled in Dafny

This project models four small parts of the json-schema-validator code base
(gitgrimbo/json-schema-validator, a JSON Schema draft v3 validator in Java),
one Dafny module each, with a shared `Wrappers` module for `Option` and
`Result`:

- **Keywords** (`keyword.dfy`) covers `Keyword` and `Keyword.Builder`.
  - A keyword has a name, an optional syntax checker and an optional validator class.
  - The builder refuses a null name.
  - Each `with…` call overwrites the previous value.
  - `build()` copies the builder's fields.
  - Syntax checkers and validator classes are closed tag datatypes.
- **KeywordBundles** (`keyword_bundles.dfy`) covers the static draft v3 table of 28 keywords and `defaultBundle()`.
  - The table is written out row by row, in source order.
  - The lemmas prove that the names are distinct and that the bundle has 28 entries.
  - They prove that every entry has a checker, and that the ten keywords without a validator class are exactly the ones the table lists.
  - They also prove the kind and type set of every parameterised checker, and that `defaultBundle()` hands out a copy.
- **Hostname** (`hostname.dfy`) covers the `hostname` format check of the older validator tree.
  - It models Java's `String.split("\\.")`: a text with no dot is returned whole, and trailing empty parts are dropped.
  - It models the case-insensitive part pattern `^[a-z0-9]+(-[a-z0-9]+)*$` as a character-by-character matcher.
  - The matcher is proved equal to the grammar reading of the pattern.
  - It models the validator's loop and its single error message.
- **UriSchemes** (`uri_schemes.dfy`) covers the URI scheme registry whose contract `URIHandlerTest` states.
  - Registration is refused for a null scheme, a null handler, a scheme outside the grammar of section 3.1 of RFC 3986, or a scheme already registered.
  - Unregistering allows registration again.
- **RefResolution** (`ref_resolution.dfy`) covers `$ref` loop detection as `URIHandlerTest.aspirinTime` states it.
  - Following references keeps the set of targets already followed. Meeting one again gives a single fatal "loops on itself" report.
  - The lemmas prove that this happens exactly when the chain of references never ends.

Assumptions this model makes:

- `KeywordBundle` is not modelled from its own code. It is assumed to be a map from keyword name to keyword:
  - registering stores a keyword under its `getName()`, replacing any earlier one;
  - `copy()` is a value snapshot.
- The registry's and the resolver's behaviour is taken from `URIHandlerTest`:
  - a fresh validator knows the `http` scheme;
  - a null scheme is checked before a null handler;
  - unregistering a null scheme, or one that is not registered, leaves the registry unchanged;
  - the documents that scheme handlers can supply are a finite map from absolute reference to schema node.
- The hostname check accepts a text made only of dots, such as `"."`. Java's split returns no parts for it, so the loop has nothing to reject (`Hostname.OnlyDotsAccepted`). The model keeps that behaviour.

## Model

| member | source | states |
|---|---|---|
| Keywords.ForKeyword | src/main/java/org/eel/kitchen/jsonschema/bundle/Keyword.java:105-120 | A builder is obtained exactly when a name is given. A null name fails with "keyword name must not be null". A new builder holds the name and no checker or validator class. |
| Keywords.WithSyntaxChecker | src/main/java/org/eel/kitchen/jsonschema/bundle/Keyword.java:128-132 | The builder afterwards holds the given checker (null clears it). Its name and validator class are unchanged. |
| Keywords.WithValidatorClass | src/main/java/org/eel/kitchen/jsonschema/bundle/Keyword.java:143-148 | The builder afterwards holds the given validator class. Its name and checker are unchanged. |
| Keywords.Build | src/main/java/org/eel/kitchen/jsonschema/bundle/Keyword.java:155-158 | The built keyword's name, checker and validator class are the builder's current ones. |
| Keywords.LastWriteWins | src/main/java/org/eel/kitchen/jsonschema/bundle/Keyword.java:128-148 | After any chain of setter calls, the builder holds the value of the last call of each kind, or its earlier value if there was no such call. The name never changes. |
| Keywords.BuiltKeywordGetters | src/main/java/org/eel/kitchen/jsonschema/bundle/Keyword.java:75-88 | `forKeyword(n)`, then both setters in either order, then `build()`, gives a keyword whose getters return exactly n, the checker and the class. A setter left out leaves its field absent, so a keyword with only one of the two is legal. |
| Keywords.BuildIsSnapshot | src/main/java/org/eel/kitchen/jsonschema/bundle/Keyword.java:64-73 | Setter calls after `build()` do not change the keyword already built. A later `build()` sees their last values. |
| KeywordBundles.Register | src/main/java/org/eel/kitchen/jsonschema/bundle/KeywordBundles.java:75-81 | Registering adds the keyword under its own name. Every other entry is unchanged. |
| KeywordBundles.Copy | src/main/java/org/eel/kitchen/jsonschema/bundle/KeywordBundles.java:261-264 | The copy has the same names, with the same keyword under each. |
| KeywordBundles.Row | src/main/java/org/eel/kitchen/jsonschema/bundle/KeywordBundles.java:75-81 | The builder chain of one table row gives a keyword with exactly the row's name and checker, and its validator class, or none when the row sets none. |
| KeywordBundles.RegisterAllContents | src/main/java/org/eel/kitchen/jsonschema/bundle/KeywordBundles.java:69-254 | Registering rows with distinct names stores each row under its name. No other name is added, and entries not named by a row are unchanged. |
| KeywordBundles.RegisterOverrides | src/main/java/org/eel/kitchen/jsonschema/bundle/KeywordBundles.java:75-81 | Registering a second keyword of the same name replaces the first. |
| KeywordBundles.DefaultNamesDistinct | src/main/java/org/eel/kitchen/jsonschema/bundle/KeywordBundles.java:75-253 | The static table has 28 rows, and their names are pairwise distinct. |
| KeywordBundles.DefaultBundleSize | src/main/java/org/eel/kitchen/jsonschema/bundle/KeywordBundles.java:75-253 | The default bundle's names are exactly the table's names, and there are 28 of them. |
| KeywordBundles.RowFacts | src/main/java/org/eel/kitchen/jsonschema/bundle/KeywordBundles.java:75-253 | Every row registers its own name and has a syntax checker. A name-parameterised checker is built with that same name. |
| KeywordBundles.DefaultBundleEntries | src/main/java/org/eel/kitchen/jsonschema/bundle/KeywordBundles.java:75-253 | Each entry of the default bundle is stored under its own name and has a checker. It lacks a validator class exactly when it is one of description, exclusiveMinimum, exclusiveMaximum, id, items, patternProperties, required, title, $ref and $schema. It has a simple, type, URI or positive-integer checker exactly when the table gives it one. |
| KeywordBundles.DefaultBundleCheckers | src/main/java/org/eel/kitchen/jsonschema/bundle/KeywordBundles.java:75-253 | The type set of every simple checker, and the kind and own-name parameter of the type, URI and positive-integer checkers, for all 18 such keywords. |
| KeywordBundles.DefaultBundleIsCopy | src/main/java/org/eel/kitchen/jsonschema/bundle/KeywordBundles.java:261-264 | Registering into the bundle a caller received leaves the next `defaultBundle()` result equal to the static table. |
| Hostname.SplitAll | src/main/java/eel/kitchen/jsonschema/validators/format/HostnameFormatValidator.java:23 | Splitting yields at least one piece, and no piece contains the separator. |
| Hostname.JoinSplitAll | src/main/java/eel/kitchen/jsonschema/validators/format/HostnameFormatValidator.java:23 | Joining the pieces with the separator gives the text back. |
| Hostname.SplitAllJoin | src/main/java/eel/kitchen/jsonschema/validators/format/HostnameFormatValidator.java:23 | Splitting the join of separator-free pieces gives the pieces back. |
| Hostname.DropTrailingEmpty | src/main/java/eel/kitchen/jsonschema/validators/format/HostnameFormatValidator.java:23 | The result is a prefix of the pieces whose last piece is not empty. Every piece dropped is empty. |
| Hostname.JavaSplit | src/main/java/eel/kitchen/jsonschema/validators/format/HostnameFormatValidator.java:23 | A text without a dot is its own single part. No part contains a dot. |
| Hostname.JavaSplitShape | src/main/java/eel/kitchen/jsonschema/validators/format/HostnameFormatValidator.java:23 | For a text containing a dot, the split either returns nothing, when the text is all dots, or returns parts ending in a non-empty one whose join, followed by some dots, is the text. |
| Hostname.MatchesPartIsPattern | src/main/java/eel/kitchen/jsonschema/validators/format/HostnameFormatValidator.java:12-13 | The part matcher accepts a part exactly when every hyphen-separated piece of it is a non-empty run of ASCII letters and digits. |
| Hostname.RunsJoinedMatch | src/main/java/eel/kitchen/jsonschema/validators/format/HostnameFormatValidator.java:12-13 | Any non-empty list of letter-and-digit runs, joined with single hyphens, is accepted. |
| Hostname.RejectedParts | src/main/java/eel/kitchen/jsonschema/validators/format/HostnameFormatValidator.java:12-13 | The empty part, a leading hyphen, a trailing hyphen and two hyphens in a row are rejected. |
| Hostname.MatchesPartUpper | src/main/java/eel/kitchen/jsonschema/validators/format/HostnameFormatValidator.java:13 | A part and its ASCII upper-cased form get the same verdict. |
| Hostname.HostnameCaseInsensitive | src/main/java/eel/kitchen/jsonschema/validators/format/HostnameFormatValidator.java:12-23 | A whole text and its ASCII upper-cased form get the same verdict. |
| Hostname.Validate | src/main/java/eel/kitchen/jsonschema/validators/format/HostnameFormatValidator.java:20-37 | The check succeeds exactly when every split part matches the pattern. On success the error list is empty; on failure it is the one message "string is not a valid hostname", whatever it held before. |
| Hostname.EmptyRejected | src/main/java/eel/kitchen/jsonschema/validators/format/HostnameFormatValidator.java:23-33 | The empty text is rejected. |
| Hostname.OnlyDotsAccepted | src/main/java/eel/kitchen/jsonschema/validators/format/HostnameFormatValidator.java:23-36 | A non-empty text made only of dots is accepted. |
| Hostname.TrailingDotIgnored | src/main/java/eel/kitchen/jsonschema/validators/format/HostnameFormatValidator.java:23 | For a non-empty text, adding one trailing dot does not change the verdict. |
| Hostname.LeadingDotRejected | src/main/java/eel/kitchen/jsonschema/validators/format/HostnameFormatValidator.java:23-33 | A leading dot followed by anything other than dots is rejected. |
| Hostname.EmptyInteriorRejected | src/main/java/eel/kitchen/jsonschema/validators/format/HostnameFormatValidator.java:23-33 | Two dots in a row followed by anything other than dots are rejected. |
| Hostname.TrailingDotExample | src/main/java/eel/kitchen/jsonschema/validators/format/HostnameFormatValidator.java:23 | "a." splits into ["a"] and is accepted. |
| Hostname.DotExample | src/main/java/eel/kitchen/jsonschema/validators/format/HostnameFormatValidator.java:23 | "." splits into no parts and is accepted. |
| Hostname.DoubleDotExample | src/main/java/eel/kitchen/jsonschema/validators/format/HostnameFormatValidator.java:23-33 | "a..b" is rejected. |
| UriSchemes.CheckScheme | src/test/java/org/eel/kitchen/jsonschema/mechanics/URIHandlerTest.java:70-77 | The character scan accepts exactly the schemes of the RFC 3986 grammar: a letter, then letters, digits, "+", "-" or ".". |
| UriSchemes.Register | src/test/java/org/eel/kitchen/jsonschema/mechanics/URIHandlerTest.java:43-77 | A null scheme fails with "scheme is null". A null handler fails with "handler is null". Registration succeeds exactly when both are given, the scheme is well formed and it is not yet registered. Success adds exactly that scheme with that handler and keeps every other entry. |
| UriSchemes.RegisterChecked | src/test/java/org/eel/kitchen/jsonschema/mechanics/URIHandlerTest.java:43-77 | Registration carried out with the character scan returns what `Register` specifies. With a scheme and a handler given, it refuses the scheme as invalid exactly when the scheme is outside the grammar. |
| UriSchemes.Unregister | src/test/java/org/eel/kitchen/jsonschema/mechanics/URIHandlerTest.java:79-84 | A given scheme is no longer registered, and every other entry is kept. A null scheme, or one not registered, leaves the registry unchanged. |
| UriSchemes.RegisterKeepsWellFormed | src/test/java/org/eel/kitchen/jsonschema/mechanics/URIHandlerTest.java:70-84 | Registering and unregistering never let a malformed scheme into the registry. |
| UriSchemes.RegisterRefusals | src/test/java/org/eel/kitchen/jsonschema/mechanics/URIHandlerTest.java:43-77 | A malformed scheme fails with "invalid scheme " and the scheme. A registered well-formed one fails with "scheme ", the scheme, and " already registered". |
| UriSchemes.DuplicateAlwaysReported | src/test/java/org/eel/kitchen/jsonschema/mechanics/URIHandlerTest.java:43-50 | In a well-formed registry, a registered scheme is always refused as already registered. |
| UriSchemes.RegisterTwiceFails | src/test/java/org/eel/kitchen/jsonschema/mechanics/URIHandlerTest.java:43-50 | Registering a scheme a second time fails, whatever the handler. |
| UriSchemes.UnregisterUndoesRegister | src/test/java/org/eel/kitchen/jsonschema/mechanics/URIHandlerTest.java:79-84 | Unregistering a scheme just registered restores the registry exactly. |
| UriSchemes.UnregisterThenRegister | src/test/java/org/eel/kitchen/jsonschema/mechanics/URIHandlerTest.java:79-84 | After unregistering a well-formed scheme, registering it again succeeds and stores the new handler. |
| UriSchemes.ExistingSchemeTestCase | src/test/java/org/eel/kitchen/jsonschema/mechanics/URIHandlerTest.java:43-50 | On a fresh validator, registering "http" fails with "scheme http already registered". |
| UriSchemes.NullArgumentTestCases | src/test/java/org/eel/kitchen/jsonschema/mechanics/URIHandlerTest.java:52-68 | A null scheme fails with "scheme is null". A null handler for "myscheme" fails with "handler is null". |
| UriSchemes.InvalidSchemeTestCase | src/test/java/org/eel/kitchen/jsonschema/mechanics/URIHandlerTest.java:70-77 | Registering "+23" fails with "invalid scheme +23". |
| UriSchemes.ReregisterTestCase | src/test/java/org/eel/kitchen/jsonschema/mechanics/URIHandlerTest.java:79-84 | Unregistering "http" and registering it again succeeds. |
| RefResolution.Resolve | src/test/java/org/eel/kitchen/jsonschema/mechanics/URIHandlerTest.java:86-117 | A loop is reported on a reference node whose target was already followed or is a known document target. A target reported unresolvable is neither known nor already followed. |
| RefResolution.LoopIffDiverges | src/test/java/org/eel/kitchen/jsonschema/mechanics/URIHandlerTest.java:86-117 | A fresh resolution reports a loop exactly when the chain of references from the node never reaches a schema or a missing target. |
| RefResolution.ResolvedIsChainEnd | src/test/java/org/eel/kitchen/jsonschema/mechanics/URIHandlerTest.java:108-109 | A successful resolution returns the schema at the end of the node's chain of references. |
| RefResolution.ResolutionReport | src/test/java/org/eel/kitchen/jsonschema/mechanics/URIHandlerTest.java:108-116 | The report is a success exactly when it is not an error. An error report carries exactly one message. It is an error exactly when resolution did not reach a schema. |
| RefResolution.DivergenceReport | src/test/java/org/eel/kitchen/jsonschema/mechanics/URIHandlerTest.java:111-116 | A chain of references that never ends gives a failed, fatal report with exactly one message, a "loops on itself" message naming a reference node. |
| RefResolution.AspirinReport | src/test/java/org/eel/kitchen/jsonschema/mechanics/URIHandlerTest.java:86-117 | Validating against "#/link1", when link1 and link2 refer to each other through the "mystuff" scheme, gives a failed error report. Its only message is `#: FATAL: schema {"$ref":"mystuff:a#/link2"} loops on itself`. |

## Left out

- Keywords.WithSyntaxChecker: Java returns the same mutable builder (`return this`). The model returns an updated builder value, so builder identity is not modelled.
- Keywords.WithValidatorClass: the same as WithSyntaxChecker. Builder identity is not modelled.
- The validator class is a Java `Class` object, used by reflection. It is an enumeration tag here.
- The bodies of the syntax checkers and keyword validators are not modelled.
- Guava `Preconditions` exception types are not modelled. Rejections are `Failure` values carrying the source's message.
- The thread-safety and immutability claims of `Keyword` and the bundle are not modelled. Every value in the model is immutable.
- KeywordBundles.DefaultBundleIsCopy: bundles here are values, so no caller can alias the static table. The lemma can only state that a registration into the returned bundle leaves the next result equal to the table. Protection against aliasing, which `copy()` provides in Java, holds by construction.
- `KeywordBundle` itself is not modelled from its own code. It is assumed to be a map keyed by keyword name (see above).
- Hostname.HostnameCaseInsensitive: states invariance under ASCII upper-casing only. Java's `Pattern.CASE_INSENSITIVE` without `UNICODE_CASE` folds only US-ASCII letters. A full Unicode `toUpperCase` can turn a non-ASCII letter into an ASCII one, so the lemma does not hold for it.
- Hostname.Validate: its contract does not state that checking stops at the first bad part. The loop does return there, and only the verdict and the single message are observable.
- `node.getTextValue()` is taken to be a string. A non-text node, for which Java would pass null, is not modelled.
- The label-length limits of section 2.1 of RFC 1123 are not checked by the source. They are not added here.
- RegexFormatValidator.java is not part of this model. It delegates to a foreign regular-expression engine, which this model does not describe.
- NonAbsoluteSchemaUris.java is not part of this model. It covers file and jar I/O, class loaders and downloading, and depends on schema resource files outside this model.
- The scheme registry treats schemes as exact strings. Any case folding the implementation might do is not modelled.
- Unregistering a scheme that is not registered, or a null scheme, leaves the registry unchanged (`UriSchemes.Unregister`). This is an assumption: `URIHandlerTest` exercises neither case.
- UriSchemes.Register: the order between the null-scheme and null-handler refusals is assumed, because each test passes only one null. The order between the grammar and duplicate refusals cannot be observed (`UriSchemes.DuplicateAlwaysReported`).
- The HTTP handler and real document fetching are not modelled. Documents are a finite map.
- Resolving a relative reference against a base URI is not modelled. References are absolute strings.
- The content of `torture.json` is not modelled. `RefResolution.AspirinDocs` assumes that its `aspirin` node holds two links that refer to each other, as the expected message implies.
- RefResolution.ResolutionReport: the text of the fatal message for a target that no handler supplies is a parameter; the model does not fix its wording.
- Instance validation against a resolved schema is not modelled. The report covers resolution only.
- JSON string escaping of a target inside a loop message is not modelled.
- A fatal report's `isError()` is taken to be true. A non-fatal validation failure does not arise in this model.
