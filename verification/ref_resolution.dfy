/**
 * `$ref` resolution with loop detection, as the handler tests state it
 * (URIHandlerTest.aspirinTime): following a chain of references that comes
 * back to a reference already followed ends with one fatal report instead
 * of running forever. The resolver itself is not part of this model; the
 * documents the registered scheme handlers can supply are flattened into a
 * finite map from absolute reference (URI plus fragment) to the schema node
 * found there.
 */
module RefResolution {
  import opened Wrappers

  /** A schema node: either a pure reference `{"$ref": target}` or any other schema. */
  datatype Node = Ref(target: string) | Schema(body: string)

  /** What every absolute reference designates. */
  type Documents = map<string, Node>

  /** How resolving a node ends. */
  datatype Outcome =
    | Resolved(schema: string)
    | Loop(at: Node)
    | Unresolvable(target: string)

  /**
   * Follow references from node. stack holds the targets already followed
   * on this resolution path; meeting one of them again is a loop, reported
   * on the node whose target closes it.
   */
  function Resolve(docs: Documents, node: Node, stack: set<string>): (o: Outcome)
    ensures o.Loop? ==> o.at.Ref? && o.at.target in stack + docs.Keys
    ensures o.Unresolvable? ==> o.target !in docs && o.target !in stack
    decreases docs.Keys - stack
  {
    match node
    case Schema(body) => Resolved(body)
    case Ref(t) =>
      if t in stack then Loop(node)
      else if t !in docs then Unresolvable(t)
      else Resolve(docs, docs[t], stack + {t})
  }

  /** Resolution of a node at the start of a validation: nothing followed yet. */
  function ResolveNode(docs: Documents, node: Node): Outcome {
    Resolve(docs, node, {})
  }

  // ---------------------------------------------------------------------------
  // The reference chain, independently of any bookkeeping
  // ---------------------------------------------------------------------------

  /** The node reached after n reference hops from node, if the chain is that long. */
  function Walk(docs: Documents, node: Node, n: nat): Option<Node>
    decreases n
  {
    if n == 0 then Some(node)
    else match node
      case Schema(_) => None
      case Ref(t) => if t in docs then Walk(docs, docs[t], n - 1) else None
  }

  /** The chain of references from node never reaches a schema or a missing target. */
  ghost predicate Diverges(docs: Documents, node: Node) {
    forall n: nat :: Walk(docs, node, n).Some?
  }

  /** Hops compose: a + m hops are m hops from where a hops end. */
  lemma {:induction false} WalkAdd(docs: Documents, node: Node, a: nat, m: nat)
    requires Walk(docs, node, a).Some?
    ensures Walk(docs, node, a + m) == Walk(docs, Walk(docs, node, a).value, m)
    decreases a
  {
    if a > 0 {
      var t := node.target;
      WalkAdd(docs, docs[t], a - 1, m);
    }
  }

  /**
   * path is the sequence of targets followed from start to reach node:
   * each one is in the documents, and the i-th hop leaves from a
   * reference to path[i].
   */
  ghost predicate OnPath(docs: Documents, start: Node, path: seq<string>, node: Node) {
    (forall i :: 0 <= i < |path| ==> path[i] in docs && Walk(docs, start, i) == Some(Ref(path[i])))
    && Walk(docs, start, |path|) == Some(node)
  }

  /** A chain that reaches the same reference at hops j and k > j repeats forever. */
  lemma {:induction false} PeriodicDiverges(docs: Documents, start: Node, j: nat, k: nat, n: nat)
    requires j < k
    requires forall i :: 0 <= i <= k ==> Walk(docs, start, i).Some?
    requires Walk(docs, start, j) == Walk(docs, start, k)
    ensures Walk(docs, start, n).Some?
    decreases n
  {
    if n > k {
      var m := n - k;
      WalkAdd(docs, start, k, m);
      WalkAdd(docs, start, j, m);
      PeriodicDiverges(docs, start, j, k, j + m);
    }
  }

  /** Resolution along a path ends in a loop only if the chain from the start diverges. */
  lemma {:induction false} LoopMeansDivergence(docs: Documents, start: Node, path: seq<string>, node: Node)
    requires OnPath(docs, start, path, node)
    requires Resolve(docs, node, set t | t in path).Loop?
    ensures Diverges(docs, start)
    decreases docs.Keys - (set t | t in path)
  {
    var t := node.target;
    var stack := set u | u in path;
    if t in stack {
      var j :| 0 <= j < |path| && path[j] == t;
      var k := |path|;
      forall i | 0 <= i <= k ensures Walk(docs, start, i).Some? {
        if i < k {
          assert Walk(docs, start, i) == Some(Ref(path[i]));
        }
      }
      forall n: nat ensures Walk(docs, start, n).Some? {
        PeriodicDiverges(docs, start, j, k, n);
      }
    } else {
      var next := path + [t];
      WalkAdd(docs, start, |path|, 1);
      assert (set u | u in next) == stack + {t};
      assert OnPath(docs, start, next, docs[t]) by {
        forall i | 0 <= i < |next|
          ensures next[i] in docs && Walk(docs, start, i) == Some(Ref(next[i]))
        {
          if i < |path| {
            assert next[i] == path[i];
          }
        }
      }
      LoopMeansDivergence(docs, start, next, docs[t]);
    }
  }

  /** A resolution that does not loop reaches where the chain really ends. */
  lemma {:induction false} EndIsReached(docs: Documents, node: Node, stack: set<string>)
    requires !Resolve(docs, node, stack).Loop?
    ensures exists n: nat :: Walk(docs, node, n).None?
    decreases docs.Keys - stack
  {
    match node
    case Schema(_) =>
      assert Walk(docs, node, 1).None?;
    case Ref(t) =>
      if t !in docs {
        assert Walk(docs, node, 1).None?;
      } else {
        EndIsReached(docs, docs[t], stack + {t});
        var n: nat :| Walk(docs, docs[t], n).None?;
        assert Walk(docs, node, n + 1).None?;
      }
  }

  /**
   * Loop detection has no false positives and no false negatives: a
   * resolution started afresh reports a loop exactly when the chain of
   * references from the node never ends.
   */
  lemma LoopIffDiverges(docs: Documents, node: Node)
    ensures ResolveNode(docs, node).Loop? <==> Diverges(docs, node)
  {
    if ResolveNode(docs, node).Loop? {
      var none: seq<string> := [];
      assert (set t | t in none) == {};
      LoopMeansDivergence(docs, node, none, node);
    } else {
      EndIsReached(docs, node, {});
    }
  }

  /** A resolution that succeeds finds the schema at the end of the chain. */
  lemma {:induction false} ResolvedIsChainEnd(docs: Documents, node: Node, stack: set<string>)
    requires Resolve(docs, node, stack).Resolved?
    ensures exists n: nat :: Walk(docs, node, n) == Some(Schema(Resolve(docs, node, stack).schema))
    decreases docs.Keys - stack
  {
    match node
    case Schema(_) =>
      assert Walk(docs, node, 0) == Some(node);
    case Ref(t) =>
      ResolvedIsChainEnd(docs, docs[t], stack + {t});
      var n: nat :| Walk(docs, docs[t], n) == Some(Schema(Resolve(docs, node, stack).schema));
      assert Walk(docs, node, n + 1) == Walk(docs, docs[t], n);
  }

  // ---------------------------------------------------------------------------
  // The report
  // ---------------------------------------------------------------------------

  /** The messages of a validation, and whether one of them is fatal. */
  datatype Report = Report(messages: seq<string>, fatal: bool) {
    predicate IsSuccess() { messages == [] }
    predicate IsError() { fatal }
  }

  /** Jackson's rendering of a node, for the pure-reference nodes loop messages name. */
  function NodeText(n: Node): string {
    match n
    case Ref(t) => "{\"$ref\":\"" + t + "\"}"
    case Schema(body) => body
  }

  /** The one message of a loop report, at the root path of the instance. */
  function LoopMessage(at: Node): string {
    "#: FATAL: schema " + NodeText(at) + " loops on itself"
  }

  /**
   * The report of resolving the schema to validate against. A loop or a
   * target no handler supplies is fatal and the only message; a resolved
   * schema adds nothing (validating the instance against it is not part of
   * this model). missingText renders the fatal message for a missing
   * target, which the tests do not show.
   */
  function ResolutionReport(docs: Documents, node: Node, missingText: string -> string): (r: Report)
    ensures r.IsSuccess() <==> !r.IsError()
    ensures r.IsError() ==> |r.messages| == 1
    ensures r.IsError() <==> !ResolveNode(docs, node).Resolved?
  {
    match ResolveNode(docs, node)
    case Resolved(_) => Report([], false)
    case Loop(at) => Report([LoopMessage(at)], true)
    case Unresolvable(t) => Report([missingText(t)], true)
  }

  /** A diverging chain gives one fatal loop message, naming a pure reference node. */
  lemma DivergenceReport(docs: Documents, node: Node, missingText: string -> string)
    requires Diverges(docs, node)
    ensures var r := ResolutionReport(docs, node, missingText);
      !r.IsSuccess() && r.IsError() && |r.messages| == 1
      && exists t :: r.messages[0] == LoopMessage(Ref(t))
  {
    LoopIffDiverges(docs, node);
  }

  // ---------------------------------------------------------------------------
  // The documents of the loop test
  // ---------------------------------------------------------------------------

  /**
   * Two fragments of one document that refer to each other through the
   * "mystuff" scheme, whose handler serves that same document for any URI.
   * The start fragment is read in the validator's own document.
   */
  const AspirinDocs: Documents := map[
    "#/link1" := Ref("mystuff:a#/link2"),
    "#/link2" := Ref("mystuff:a#/link1"),
    "mystuff:a#/link1" := Ref("mystuff:a#/link2"),
    "mystuff:a#/link2" := Ref("mystuff:a#/link1")
  ]

  /** Validating against "#/link1" fails with exactly the fatal loop message the test expects. */
  lemma AspirinReport(missingText: string -> string)
    ensures var r := ResolutionReport(AspirinDocs, Ref("#/link1"), missingText);
      !r.IsSuccess() && r.IsError() && |r.messages| == 1
      && r.messages[0] == "#: FATAL: schema " + "{\"$ref\":\"" + "mystuff:a#/link2" + "\"}" + " loops on itself"
  {
    var s0: set<string> := {};
    var s1 := s0 + {"#/link1"};
    var s2 := s1 + {"mystuff:a#/link2"};
    var s3 := s2 + {"mystuff:a#/link1"};
    assert "mystuff:a#/link2" in s3;
    assert Resolve(AspirinDocs, Ref("mystuff:a#/link2"), s3) == Loop(Ref("mystuff:a#/link2"));
    assert "mystuff:a#/link1" !in s2;
    assert Resolve(AspirinDocs, Ref("mystuff:a#/link1"), s2) == Loop(Ref("mystuff:a#/link2"));
    assert "mystuff:a#/link2" !in s1;
    assert Resolve(AspirinDocs, Ref("mystuff:a#/link2"), s1) == Loop(Ref("mystuff:a#/link2"));
    assert "#/link1" in AspirinDocs && AspirinDocs["#/link1"] == Ref("mystuff:a#/link2");
    assert ResolveNode(AspirinDocs, Ref("#/link1")) == Loop(Ref("mystuff:a#/link2"));
  }
}
