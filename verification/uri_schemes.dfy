/**
 * The URI scheme registry of the validator: one handler per scheme, with the
 * registration contract its tests state (URIHandlerTest). The registry's
 * implementation is not part of this model; its behaviour is taken from
 * those tests and from the scheme grammar of section 3.1 of RFC 3986.
 */
module UriSchemes {
  import opened Wrappers

  /** A document handler. Handlers are opaque; only their identity matters here. */
  datatype Handler = HttpHandler | CustomHandler(id: nat)

  /** Registered handlers by scheme. */
  type Registry = map<string, Handler>

  /** A fresh validator knows the "http" scheme. */
  const InitialRegistry: Registry := map["http" := HttpHandler]

  const NullSchemeMessage: string := "scheme is null"
  const NullHandlerMessage: string := "handler is null"

  function InvalidSchemeMessage(scheme: string): string {
    "invalid scheme " + scheme
  }

  function AlreadyRegisteredMessage(scheme: string): string {
    "scheme " + scheme + " already registered"
  }

  predicate IsAlpha(c: char) {
    ('a' <= c <= 'z') || ('A' <= c <= 'Z')
  }

  predicate IsDigit(c: char) {
    '0' <= c <= '9'
  }

  /** A character allowed after the first one of a scheme. */
  predicate IsSchemeChar(c: char) {
    IsAlpha(c) || IsDigit(c) || c == '+' || c == '-' || c == '.'
  }

  /** `scheme = ALPHA *( ALPHA / DIGIT / "+" / "-" / "." )`, section 3.1 of RFC 3986. */
  predicate ValidScheme(s: string) {
    |s| >= 1 && IsAlpha(s[0]) && forall i :: 1 <= i < |s| ==> IsSchemeChar(s[i])
  }

  /** Every registered scheme is well formed. */
  predicate WellFormed(reg: Registry) {
    forall s :: s in reg ==> ValidScheme(s)
  }

  /** The scheme check as a scan of the text, one character at a time. */
  method CheckScheme(s: string) returns (ok: bool)
    ensures ok <==> ValidScheme(s)
  {
    if |s| == 0 || !IsAlpha(s[0]) {
      return false;
    }
    var i := 1;
    while i < |s|
      invariant 1 <= i <= |s|
      invariant forall j :: 1 <= j < i ==> IsSchemeChar(s[j])
    {
      if !IsSchemeChar(s[i]) {
        return false;
      }
      i := i + 1;
    }
    return true;
  }

  /**
   * registerURIHandler: a missing scheme or handler, a malformed scheme and
   * an already registered scheme are refused, in that order; otherwise the
   * handler is added under the scheme.
   */
  function Register(reg: Registry, scheme: Option<string>, handler: Option<Handler>): (r: Result<Registry>)
    ensures scheme.None? ==> r == Failure(NullSchemeMessage)
    ensures scheme.Some? && handler.None? ==> r == Failure(NullHandlerMessage)
    ensures r.Success? <==>
      (scheme.Some? && handler.Some? && ValidScheme(scheme.value) && scheme.value !in reg)
    ensures r.Success? ==>
      r.value.Keys == reg.Keys + {scheme.value}
      && r.value[scheme.value] == handler.value
      && forall s :: s in reg ==> r.value[s] == reg[s]
  {
    if scheme.None? then Failure(NullSchemeMessage)
    else if handler.None? then Failure(NullHandlerMessage)
    else if !ValidScheme(scheme.value) then Failure(InvalidSchemeMessage(scheme.value))
    else if scheme.value in reg then Failure(AlreadyRegisteredMessage(scheme.value))
    else Success(reg[scheme.value := handler.value])
  }

  /**
   * registerURIHandler with the grammar check done by the character scan
   * CheckScheme: it returns what Register specifies, and it refuses a present
   * scheme and handler as invalid exactly when the scan rejects the scheme.
   */
  method RegisterChecked(reg: Registry, scheme: Option<string>, handler: Option<Handler>) returns (r: Result<Registry>)
    ensures r == Register(reg, scheme, handler)
    ensures scheme.Some? && handler.Some? ==>
      (r == Failure(InvalidSchemeMessage(scheme.value)) <==> !ValidScheme(scheme.value))
  {
    if scheme.None? {
      return Failure(NullSchemeMessage);
    }
    if handler.None? {
      return Failure(NullHandlerMessage);
    }
    var s := scheme.value;
    var ok := CheckScheme(s);
    if !ok {
      return Failure(InvalidSchemeMessage(s));
    }
    if s in reg {
      assert AlreadyRegisteredMessage(s)[0] != InvalidSchemeMessage(s)[0];
      return Failure(AlreadyRegisteredMessage(s));
    }
    return Success(reg[s := handler.value]);
  }

  /**
   * unregisterURIHandler: the scheme, if registered, is forgotten. A null
   * scheme, or one that is not registered, leaves the registry as it was.
   */
  function Unregister(reg: Registry, scheme: Option<string>): (r: Registry)
    ensures scheme.None? ==> r == reg
    ensures scheme.Some? ==> scheme.value !in r && r.Keys == reg.Keys - {scheme.value}
    ensures scheme.Some? && scheme.value !in reg ==> r == reg
    ensures forall s :: s in r ==> s in reg && r[s] == reg[s]
  {
    match scheme
    case None => reg
    case Some(s) => reg - {s}
  }

  /** Registration keeps the registry well formed, and so does unregistration. */
  lemma RegisterKeepsWellFormed(reg: Registry, scheme: Option<string>, handler: Option<Handler>, gone: Option<string>)
    requires WellFormed(reg)
    ensures WellFormed(Unregister(reg, gone))
    ensures Register(reg, scheme, handler).Success? ==> WellFormed(Register(reg, scheme, handler).value)
  {
  }

  /** The messages of the two scheme refusals, given a present scheme and handler. */
  lemma RegisterRefusals(reg: Registry, s: string, h: Handler)
    ensures !ValidScheme(s) ==> Register(reg, Some(s), Some(h)) == Failure(InvalidSchemeMessage(s))
    ensures ValidScheme(s) && s in reg ==> Register(reg, Some(s), Some(h)) == Failure(AlreadyRegisteredMessage(s))
  {
  }

  /**
   * In a well-formed registry a registered scheme is always refused as
   * already registered: the grammar check cannot get there first.
   */
  lemma DuplicateAlwaysReported(reg: Registry, s: string, h: Handler)
    requires WellFormed(reg) && s in reg
    ensures Register(reg, Some(s), Some(h)) == Failure(AlreadyRegisteredMessage(s))
  {
  }

  /** Registering a scheme a second time fails, whatever the handler. */
  lemma RegisterTwiceFails(reg: Registry, s: string, h1: Handler, h2: Handler)
    requires Register(reg, Some(s), Some(h1)).Success?
    ensures Register(Register(reg, Some(s), Some(h1)).value, Some(s), Some(h2))
      == Failure(AlreadyRegisteredMessage(s))
  {
  }

  /** Unregistering a scheme just registered gives back the registry it was added to. */
  lemma UnregisterUndoesRegister(reg: Registry, s: string, h: Handler)
    requires Register(reg, Some(s), Some(h)).Success?
    ensures Unregister(Register(reg, Some(s), Some(h)).value, Some(s)) == reg
  {
    var r := Register(reg, Some(s), Some(h)).value;
    assert Unregister(r, Some(s)).Keys == reg.Keys;
  }

  /** After unregistering a well-formed scheme, registering it again succeeds. */
  lemma UnregisterThenRegister(reg: Registry, s: string, h: Handler)
    requires ValidScheme(s)
    ensures Register(Unregister(reg, Some(s)), Some(s), Some(h)) == Success(Unregister(reg, Some(s))[s := h])
  {
  }

  /** "http" is a well-formed scheme. */
  lemma HttpIsValid()
    ensures ValidScheme("http")
  {
    assert IsAlpha("http"[0]);
  }

  /** On a fresh validator, registering "http" again is refused. */
  lemma ExistingSchemeTestCase(h: Handler)
    ensures Register(InitialRegistry, Some("http"), Some(h)) == Failure("scheme http already registered")
  {
    HttpIsValid();
  }

  /** A null scheme and a null handler are refused with their own messages. */
  lemma NullArgumentTestCases(h: Handler)
    ensures Register(InitialRegistry, None, Some(h)) == Failure("scheme is null")
    ensures Register(InitialRegistry, Some("myscheme"), None) == Failure("handler is null")
  {
  }

  /** "+23" does not start with a letter and is refused as invalid. */
  lemma InvalidSchemeTestCase(h: Handler)
    ensures Register(InitialRegistry, Some("+23"), Some(h)) == Failure("invalid scheme +23")
  {
    assert !IsAlpha("+23"[0]);
  }

  /** Once "http" is unregistered, registering it again succeeds. */
  lemma ReregisterTestCase(h: Handler)
    ensures Register(Unregister(InitialRegistry, Some("http")), Some("http"), Some(h)).Success?
  {
    HttpIsValid();
    UnregisterThenRegister(InitialRegistry, "http", h);
  }
}
