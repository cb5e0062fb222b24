/**
 * The hostname format check of the older validator tree
 * (eel.kitchen.jsonschema.validators.format.HostnameFormatValidator).
 *
 * The text is split on '.' with the semantics of Java's String.split, and
 * every part must match `^[a-z0-9]+(-[a-z0-9]+)*$` with ASCII case folding.
 * The label-length limits of section 2.1 of RFC 1123 are not checked there,
 * so they are not checked here either.
 */
module Hostname {

  /** The one message recorded when a text is rejected. */
  const HostnameMessage: string := "string is not a valid hostname"

  /** A character of the class `[a-z0-9]` under ASCII case-insensitive matching. */
  predicate IsWordChar(c: char) {
    ('a' <= c <= 'z') || ('A' <= c <= 'Z') || ('0' <= c <= '9')
  }

  // ---------------------------------------------------------------------------
  // Splitting and joining on a separator
  // ---------------------------------------------------------------------------

  /**
   * Every piece of s between separators, empty pieces included: what Java's
   * split computes before it drops trailing empty pieces.
   */
  function SplitAll(s: string, sep: char): (parts: seq<string>)
    ensures |parts| >= 1
    ensures forall i :: 0 <= i < |parts| ==> sep !in parts[i]
    decreases |s|
  {
    if s == [] then [[]]
    else
      var rest := SplitAll(s[1..], sep);
      if s[0] == sep then [[]] + rest
      else [[s[0]] + rest[0]] + rest[1..]
  }

  /** The parts glued back together with one separator between neighbours. */
  function Join(parts: seq<string>, sep: char): string
    requires |parts| >= 1
    decreases |parts|
  {
    if |parts| == 1 then parts[0] else parts[0] + [sep] + Join(parts[1..], sep)
  }

  /** Joining the pieces of s gives s back. */
  lemma {:induction false} JoinSplitAll(s: string, sep: char)
    ensures Join(SplitAll(s, sep), sep) == s
    decreases |s|
  {
    if s != [] {
      var rest := SplitAll(s[1..], sep);
      JoinSplitAll(s[1..], sep);
      if s[0] == sep {
        assert SplitAll(s, sep)[1..] == rest;
      } else {
        var parts := SplitAll(s, sep);
        if |rest| == 1 {
          assert parts == [[s[0]] + rest[0]];
        } else {
          assert parts[1..] == rest[1..];
          assert Join(rest, sep) == rest[0] + [sep] + Join(rest[1..], sep);
        }
      }
    }
  }

  /** A text without the separator is a single piece. */
  lemma {:induction false} SplitAllNoSep(w: string, sep: char)
    requires sep !in w
    ensures SplitAll(w, sep) == [w]
    decreases |w|
  {
    if w != [] {
      SplitAllNoSep(w[1..], sep);
      assert w[0] != sep && [w[0]] + w[1..] == w;
    }
  }

  /** Splitting around one separator splits each side independently. */
  lemma {:induction false} SplitAllConcat(a: string, b: string, sep: char)
    ensures SplitAll(a + [sep] + b, sep) == SplitAll(a, sep) + SplitAll(b, sep)
    decreases |a|
  {
    if a == [] {
      assert a + [sep] + b == [sep] + b;
      assert ([sep] + b)[1..] == b;
    } else {
      var s := a + [sep] + b;
      assert s[0] == a[0] && s[1..] == a[1..] + [sep] + b;
      SplitAllConcat(a[1..], b, sep);
    }
  }

  /** Splitting the join of separator-free parts gives the parts back. */
  lemma {:induction false} SplitAllJoin(parts: seq<string>, sep: char)
    requires |parts| >= 1
    requires forall i :: 0 <= i < |parts| ==> sep !in parts[i]
    ensures SplitAll(Join(parts, sep), sep) == parts
    decreases |parts|
  {
    SplitAllNoSep(parts[0], sep);
    if |parts| > 1 {
      SplitAllJoin(parts[1..], sep);
      SplitAllConcat(parts[0], Join(parts[1..], sep), sep);
      assert parts == [parts[0]] + parts[1..];
    }
  }

  /**
   * The pieces that remain once the trailing empty ones are removed, as
   * Java's split does with a zero limit.
   */
  function DropTrailingEmpty(parts: seq<string>): (r: seq<string>)
    ensures |r| <= |parts| && r == parts[..|r|]
    ensures r == [] || r[|r| - 1] != []
    ensures forall i :: |r| <= i < |parts| ==> parts[i] == []
    decreases |parts|
  {
    if parts == [] then []
    else if parts[|parts| - 1] == [] then DropTrailingEmpty(parts[..|parts| - 1])
    else parts
  }

  /** Trailing empties of a suffix with a non-empty piece are all that is dropped. */
  lemma {:induction false} DropTrailingEmptyConcat(xs: seq<string>, ys: seq<string>)
    requires exists j :: 0 <= j < |ys| && ys[j] != []
    ensures DropTrailingEmpty(xs + ys) == xs + DropTrailingEmpty(ys)
    decreases |ys|
  {
    var j :| 0 <= j < |ys| && ys[j] != [];
    if ys[|ys| - 1] == [] {
      assert j < |ys| - 1;
      assert (xs + ys)[..|xs + ys| - 1] == xs + ys[..|ys| - 1];
      assert ys[..|ys| - 1][j] == ys[j];
      DropTrailingEmptyConcat(xs, ys[..|ys| - 1]);
    }
  }

  /**
   * `s.split("\\.")` in Java: a text without the separator is returned whole
   * (so "" gives [""]); otherwise it is cut at every separator and the
   * trailing empty pieces are dropped.
   */
  function JavaSplit(s: string, sep: char): (r: seq<string>)
    ensures sep !in s ==> r == [s]
    ensures forall i :: 0 <= i < |r| ==> sep !in r[i]
  {
    if sep !in s then [s] else DropTrailingEmpty(SplitAll(s, sep))
  }

  /** The text made of n separators. */
  function Repeat(sep: char, n: nat): (r: string)
    ensures |r| == n && forall i :: 0 <= i < n ==> r[i] == sep
  {
    seq(n, _ => sep)
  }

  /** Joining parts followed by k empty pieces appends k separators. */
  lemma {:induction false} JoinTrailingEmpties(parts: seq<string>, k: nat, sep: char)
    requires |parts| >= 1
    ensures Join(parts + seq(k, _ => []), sep) == Join(parts, sep) + Repeat(sep, k)
    decreases |parts| + k
  {
    if |parts| > 1 {
      assert (parts + seq(k, _ => []))[1..] == parts[1..] + seq(k, _ => []);
      JoinTrailingEmpties(parts[1..], k, sep);
    } else if k > 0 {
      var empties: seq<string> := seq(k, _ => []);
      assert parts + empties == [parts[0]] + ([[]] + seq(k - 1, _ => []));
      assert (parts + empties)[1..] == [[]] + seq(k - 1, _ => []);
      JoinTrailingEmpties([[]], k - 1, sep);
      assert Join([[]] + seq(k - 1, _ => []), sep) == Repeat(sep, k - 1);
      assert Repeat(sep, k) == [sep] + Repeat(sep, k - 1);
    }
  }

  /**
   * What Java's split returns, characterised without reference to how it is
   * computed: the separator-free pieces that, joined and followed by some
   * number of separators, give the text back, with a non-empty last piece;
   * or nothing at all for a text made only of separators.
   */
  lemma JavaSplitShape(s: string, sep: char)
    requires sep in s
    ensures var r := JavaSplit(s, sep);
      (r == [] && forall i :: 0 <= i < |s| ==> s[i] == sep)
      || (r != [] && r[|r| - 1] != [] && exists k: nat :: s == Join(r, sep) + Repeat(sep, k))
  {
    var all := SplitAll(s, sep);
    var r := DropTrailingEmpty(all);
    assert JavaSplit(s, sep) == r;
    JoinSplitAll(s, sep);
    if r == [] {
      JoinAllEmpty(all, sep);
    } else {
      var k := |all| - |r|;
      DroppedAreEmpties(all);
      JoinTrailingEmpties(r, k, sep);
      assert s == Join(r, sep) + Repeat(sep, k);
    }
  }

  /** Joining empty pieces yields separators only. */
  lemma {:induction false} JoinAllEmpty(parts: seq<string>, sep: char)
    requires |parts| >= 1
    requires forall j :: 0 <= j < |parts| ==> parts[j] == []
    ensures forall i :: 0 <= i < |Join(parts, sep)| ==> Join(parts, sep)[i] == sep
    decreases |parts|
  {
    if |parts| > 1 {
      JoinAllEmpty(parts[1..], sep);
    }
  }

  /** The pieces split off the end are k empty ones. */
  lemma DroppedAreEmpties(parts: seq<string>)
    ensures var r := DropTrailingEmpty(parts);
      parts == r + seq(|parts| - |r|, _ => [])
  {
    var r := DropTrailingEmpty(parts);
    var empties: seq<string> := seq(|parts| - |r|, _ => []);
    assert parts[..|r|] == r;
    forall i | |r| <= i < |parts| ensures parts[i] == (r + empties)[i] { }
  }

  /** A text of separators only splits into empty pieces. */
  lemma {:induction false} SplitAllOnlySeps(s: string, sep: char)
    requires forall i :: 0 <= i < |s| ==> s[i] == sep
    ensures forall j :: 0 <= j < |SplitAll(s, sep)| ==> SplitAll(s, sep)[j] == []
    decreases |s|
  {
    if s != [] {
      SplitAllOnlySeps(s[1..], sep);
      assert s[0] == sep;
      assert SplitAll(s, sep) == [[]] + SplitAll(s[1..], sep);
    }
  }

  /** A character other than the separator lands in a non-empty piece. */
  lemma {:induction false} SplitAllNonEmptyPiece(s: string, sep: char, i: nat)
    requires i < |s| && s[i] != sep
    ensures exists j :: 0 <= j < |SplitAll(s, sep)| && SplitAll(s, sep)[j] != []
    decreases |s|
  {
    var parts := SplitAll(s, sep);
    if s[0] != sep {
      assert parts[0] != [];
    } else {
      SplitAllNonEmptyPiece(s[1..], sep, i - 1);
      var rest := SplitAll(s[1..], sep);
      var j :| 0 <= j < |rest| && rest[j] != [];
      assert parts[j + 1] == rest[j];
    }
  }

  // ---------------------------------------------------------------------------
  // One hostname part: ^[a-z0-9]+(-[a-z0-9]+)*$, case-insensitive
  // ---------------------------------------------------------------------------

  /** Every character of w is in `[a-z0-9]` (either case). */
  predicate WordChars(w: string) {
    forall i :: 0 <= i < |w| ==> IsWordChar(w[i])
  }

  /** One run `[a-z0-9]+` of the pattern. */
  predicate IsLabel(w: string) {
    w != [] && WordChars(w)
  }

  /**
   * The pattern read as a grammar: the part is one or more `[a-z0-9]+` runs
   * separated by single hyphens, that is, every hyphen-separated piece is a
   * non-empty run.
   */
  predicate PatternMatches(p: string) {
    var runs := SplitAll(p, '-');
    forall i :: 0 <= i < |runs| ==> IsLabel(runs[i])
  }

  /**
   * The matcher for the part pattern, one character at a time. afterRun says
   * the previous character closed a `[a-z0-9]`, so that a hyphen or the end
   * of the part may follow.
   */
  function Run(p: string, afterRun: bool): bool
    decreases |p|
  {
    if p == [] then afterRun
    else if IsWordChar(p[0]) then Run(p[1..], true)
    else if p[0] == '-' && afterRun then Run(p[1..], false)
    else false
  }

  /** `hostnamePart.matcher(part).matches()`. */
  function MatchesPart(p: string): bool {
    Run(p, false)
  }

  /** A text is made of `[a-z0-9]` exactly when its first character and the rest are. */
  lemma WordCharsCons(c: char, w: string)
    ensures WordChars([c] + w) <==> IsWordChar(c) && WordChars(w)
  {
    var cw := [c] + w;
    assert cw[0] == c;
    assert forall i :: 0 <= i < |w| ==> cw[i + 1] == w[i];
  }

  /** The matcher's verdict in terms of the hyphen-separated pieces of the rest of the part. */
  lemma {:induction false} RunPieces(p: string, afterRun: bool)
    ensures var runs := SplitAll(p, '-');
      Run(p, afterRun) <==>
        (WordChars(runs[0]) && (runs[0] != [] || afterRun)
         && forall i :: 1 <= i < |runs| ==> IsLabel(runs[i]))
    decreases |p|
  {
    if p != [] {
      var runs := SplitAll(p, '-');
      var rest := SplitAll(p[1..], '-');
      if IsWordChar(p[0]) {
        RunPieces(p[1..], true);
        assert runs[0] == [p[0]] + rest[0];
        assert forall i :: 1 <= i < |runs| ==> runs[i] == rest[i];
        WordCharsCons(p[0], rest[0]);
      } else if p[0] == '-' {
        RunPieces(p[1..], false);
        assert runs == [[]] + rest;
        assert WordChars(runs[0]);
        if forall i :: 0 <= i < |rest| ==> IsLabel(rest[i]) {
          forall i | 1 <= i < |runs| ensures IsLabel(runs[i]) {
            assert runs[i] == rest[i - 1];
          }
        }
        if forall i :: 1 <= i < |runs| ==> IsLabel(runs[i]) {
          forall i | 0 <= i < |rest| ensures IsLabel(rest[i]) {
            assert runs[i + 1] == rest[i];
          }
        }
      } else {
        assert runs[0] == [p[0]] + rest[0];
        WordCharsCons(p[0], rest[0]);
      }
    }
  }

  /** The matcher accepts exactly the parts the pattern describes. */
  lemma MatchesPartIsPattern(p: string)
    ensures MatchesPart(p) <==> PatternMatches(p)
  {
    RunPieces(p, false);
  }

  /** Any non-empty list of runs joined with single hyphens matches. */
  lemma RunsJoinedMatch(runs: seq<string>)
    requires |runs| >= 1
    requires forall i :: 0 <= i < |runs| ==> IsLabel(runs[i])
    ensures MatchesPart(Join(runs, '-'))
  {
    SplitAllJoin(runs, '-');
    MatchesPartIsPattern(Join(runs, '-'));
  }

  /**
   * The parts the pattern rejects: the empty part, a leading or trailing
   * hyphen, and two hyphens in a row.
   */
  lemma RejectedParts(a: string, b: string)
    ensures !MatchesPart([])
    ensures !MatchesPart(['-'] + b)
    ensures !MatchesPart(a + ['-'])
    ensures !MatchesPart(a + ['-', '-'] + b)
  {
    EmptyPieceRejected(a, []);
    assert a + ['-'] + [] == a + ['-'];
    EmptyPieceRejected(a + ['-'], b);
    assert a + ['-'] + ['-'] + b == a + ['-', '-'] + b;
  }

  /**
   * A hyphen at the start or the end of a part, or right after another
   * hyphen, leaves an empty run.
   */
  lemma EmptyPieceRejected(a: string, b: string)
    requires a == [] || a[|a| - 1] == '-' || b == []
    ensures !MatchesPart(a + ['-'] + b)
  {
    SplitAllConcat(a, b, '-');
    var left := SplitAll(a, '-');
    var runs := SplitAll(a + ['-'] + b, '-');
    if b == [] {
      assert runs[|left|] == [];
    } else {
      assert left[|left| - 1] == [] by {
        if a != [] {
          var a0 := a[..|a| - 1];
          assert a == a0 + ['-'] + [];
          SplitAllConcat(a0, [], '-');
        }
      }
      assert runs[|left| - 1] == [];
    }
    MatchesPartIsPattern(a + ['-'] + b);
  }

  // ---------------------------------------------------------------------------
  // Case folding
  // ---------------------------------------------------------------------------

  /** ASCII upper-casing of one character; every other character is unchanged. */
  function AsciiUpper(c: char): char {
    if 'a' <= c <= 'z' then (c as int - 32) as char else c
  }

  /** ASCII upper-casing of a text. */
  function Upper(s: string): (r: string)
    ensures |r| == |s| && forall i :: 0 <= i < |s| ==> r[i] == AsciiUpper(s[i])
  {
    seq(|s|, i requires 0 <= i < |s| => AsciiUpper(s[i]))
  }

  /** Upper-casing does not change the matcher's run. */
  lemma {:induction false} RunUpper(p: string, afterRun: bool)
    ensures Run(Upper(p), afterRun) == Run(p, afterRun)
    decreases |p|
  {
    if p != [] {
      assert Upper(p)[1..] == Upper(p[1..]);
      RunUpper(p[1..], true);
      RunUpper(p[1..], false);
    }
  }

  /** The part pattern is case-insensitive. */
  lemma MatchesPartUpper(p: string)
    ensures MatchesPart(Upper(p)) == MatchesPart(p)
  {
    RunUpper(p, false);
  }

  /** Upper-casing commutes with splitting on '.'. */
  lemma {:induction false} SplitAllUpper(s: string)
    ensures SplitAll(Upper(s), '.') == UpperAll(SplitAll(s, '.'))
    decreases |s|
  {
    if s != [] {
      assert Upper(s)[1..] == Upper(s[1..]);
      SplitAllUpper(s[1..]);
      var rest := SplitAll(s[1..], '.');
      if s[0] != '.' {
        assert Upper([s[0]] + rest[0]) == [AsciiUpper(s[0])] + Upper(rest[0]);
      }
    }
  }

  /** Each part upper-cased. */
  function UpperAll(parts: seq<string>): (r: seq<string>)
    ensures |r| == |parts| && forall i :: 0 <= i < |parts| ==> r[i] == Upper(parts[i])
  {
    seq(|parts|, i requires 0 <= i < |parts| => Upper(parts[i]))
  }

  /** Upper-casing commutes with dropping trailing empty parts. */
  lemma {:induction false} DropTrailingEmptyUpper(parts: seq<string>)
    ensures DropTrailingEmpty(UpperAll(parts)) == UpperAll(DropTrailingEmpty(parts))
    decreases |parts|
  {
    if parts != [] {
      assert UpperAll(parts)[..|parts| - 1] == UpperAll(parts[..|parts| - 1]);
      DropTrailingEmptyUpper(parts[..|parts| - 1]);
    }
  }

  // ---------------------------------------------------------------------------
  // The whole check
  // ---------------------------------------------------------------------------

  /** The verdict the validator promises: every part of the split text matches the pattern. */
  predicate IsHostname(s: string) {
    var parts := JavaSplit(s, '.');
    forall i :: 0 <= i < |parts| ==> PatternMatches(parts[i])
  }

  /**
   * HostnameFormatValidator.validate. errors is the validator's error list
   * on entry; it is cleared, then the parts are checked in order and the
   * first one that does not match records the single message and ends the
   * check.
   */
  method Validate(errors: seq<string>, value: string) returns (valid: bool, errorsOut: seq<string>)
    ensures valid <==> IsHostname(value)
    ensures valid ==> errorsOut == []
    ensures !valid ==> errorsOut == [HostnameMessage]
  {
    var parts := JavaSplit(value, '.');
    errorsOut := [];
    var k := 0;
    while k < |parts|
      invariant 0 <= k <= |parts|
      invariant errorsOut == []
      invariant forall j :: 0 <= j < k ==> MatchesPart(parts[j])
    {
      if !MatchesPart(parts[k]) {
        errorsOut := errorsOut + [HostnameMessage];
        MatchesPartIsPattern(parts[k]);
        return false, errorsOut;
      }
      k := k + 1;
    }
    forall j | 0 <= j < |parts| ensures PatternMatches(parts[j]) {
      MatchesPartIsPattern(parts[j]);
    }
    return true, errorsOut;
  }

  /** The empty text splits into one empty part and is rejected. */
  lemma EmptyRejected()
    ensures !IsHostname([])
  {
    assert JavaSplit([], '.')[0] == [];
    assert SplitAll([], '-')[0] == [];
  }

  /** A text made only of dots splits into no parts at all and is accepted. */
  lemma OnlyDotsAccepted(s: string)
    requires s != [] && forall i :: 0 <= i < |s| ==> s[i] == '.'
    ensures IsHostname(s)
  {
    assert s[0] == '.';
    SplitAllOnlySeps(s, '.');
    var all := SplitAll(s, '.');
    var r := DropTrailingEmpty(all);
    assert r == [];
  }

  /** One trailing dot is ignored: `host.` gets the verdict of `host`. */
  lemma TrailingDotIgnored(s: string)
    requires s != []
    ensures IsHostname(s + ['.']) == IsHostname(s)
  {
    SplitAllConcat(s, [], '.');
    assert s + ['.'] == s + ['.'] + [];
    var all := SplitAll(s, '.');
    assert SplitAll(s + ['.'], '.') == all + [[]];
    assert (all + [[]])[..|all|] == all;
    if '.' !in s {
      SplitAllNoSep(s, '.');
      assert JavaSplit(s + ['.'], '.') == [s];
    } else {
      assert JavaSplit(s + ['.'], '.') == JavaSplit(s, '.');
    }
  }

  /** A leading dot before anything but dots leaves an empty first part, which is rejected. */
  lemma LeadingDotRejected(b: string)
    requires exists i :: 0 <= i < |b| && b[i] != '.'
    ensures !IsHostname(['.'] + b)
  {
    EmptyPartRejected([], b);
    assert [] + ['.'] + b == ['.'] + b;
  }

  /** Two dots in a row before anything but dots leave an empty interior part, which is rejected. */
  lemma EmptyInteriorRejected(a: string, b: string)
    requires exists i :: 0 <= i < |b| && b[i] != '.'
    ensures !IsHostname(a + ['.', '.'] + b)
  {
    EmptyPartRejected(a + ['.'], b);
    assert a + ['.'] + ['.'] + b == a + ['.', '.'] + b;
  }

  /** A dot that starts the text or follows a dot, with a non-dot later on, yields a rejected empty part. */
  lemma EmptyPartRejected(a: string, b: string)
    requires a == [] || a[|a| - 1] == '.'
    requires exists i :: 0 <= i < |b| && b[i] != '.'
    ensures !IsHostname(a + ['.'] + b)
  {
    var s := a + ['.'] + b;
    SplitAllConcat(a, b, '.');
    var left := SplitAll(a, '.');
    var right := SplitAll(b, '.');
    assert left[|left| - 1] == [] by {
      if a != [] {
        var a0 := a[..|a| - 1];
        assert a == a0 + ['.'] + [];
        SplitAllConcat(a0, [], '.');
      }
    }
    var i :| 0 <= i < |b| && b[i] != '.';
    SplitAllNonEmptyPiece(b, '.', i);
    DropTrailingEmptyConcat(left, right);
    assert '.' in s by { assert s[|a|] == '.'; }
    var parts := JavaSplit(s, '.');
    assert parts[|left| - 1] == [];
    MatchesPartIsPattern([]);
  }

  /** Upper-casing the text never changes the verdict. */
  lemma HostnameCaseInsensitive(s: string)
    ensures IsHostname(Upper(s)) == IsHostname(s)
  {
    assert ('.' in Upper(s)) <==> ('.' in s) by {
      if '.' in s {
        var i :| 0 <= i < |s| && s[i] == '.';
        assert Upper(s)[i] == '.';
      }
    }
    var parts := JavaSplit(s, '.');
    var uparts := JavaSplit(Upper(s), '.');
    if '.' in s {
      SplitAllUpper(s);
      DropTrailingEmptyUpper(SplitAll(s, '.'));
    }
    assert uparts == UpperAll(parts);
    forall i | 0 <= i < |parts| ensures PatternMatches(uparts[i]) == PatternMatches(parts[i]) {
      MatchesPartIsPattern(parts[i]);
      MatchesPartIsPattern(uparts[i]);
      MatchesPartUpper(parts[i]);
    }
  }

  /** "a." splits into the one part "a" and is accepted. */
  lemma TrailingDotExample()
    ensures JavaSplit("a.", '.') == ["a"] && IsHostname("a.")
  {
    assert "a." == "a" + ['.'] + [];
    SplitAllConcat("a", [], '.');
    SplitAllNoSep("a", '.');
    SplitAllNoSep("a", '-');
    assert JavaSplit("a.", '.') == DropTrailingEmpty(["a", []]);
  }

  /** "." splits into no parts at all and is accepted. */
  lemma DotExample()
    ensures JavaSplit(".", '.') == [] && IsHostname(".")
  {
    OnlyDotsAccepted(".");
    assert SplitAll(".", '.') == [[], []];
  }

  /** "a..b" has an empty interior part and is rejected. */
  lemma DoubleDotExample()
    ensures !IsHostname("a..b")
  {
    assert "b"[0] != '.';
    EmptyInteriorRejected("a", "b");
    assert "a" + ['.', '.'] + "b" == "a..b";
  }
}
