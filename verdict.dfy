/** The verdict pack and the causal graph (packages/shared/src/schemas/verdict.ts)
    as datatypes with validity predicates. */
module Verdict {
  import opened Wrappers
  import opened Json

  /** The fix categories, in the order of the shared constants. */
  const FixCategories: seq<string> := ["prompt", "tooling", "memory", "orchestration", "safety"]

  const NodeTypes: set<string> := {"step", "assumption", "tool_output", "decision"}

  const EdgeTypes: set<string> := {"depends_on", "contradicts", "leads_to"}

  /** A reference from a claim to a step of the trace; all strings are free. */
  datatype EvidenceLink = EvidenceLink(step_id: string, artifact_key: Option<string>, snippet: Option<string>)

  datatype ContributingFactor = ContributingFactor(rank: real, description: string, evidence_links: seq<EvidenceLink>)

  datatype Contradiction = Contradiction(claim_a: string, claim_b: string, description: Option<string>)

  datatype FixSuggestion = FixSuggestion(category: string, description: string, evidence_links: Option<seq<EvidenceLink>>)

  datatype VerdictPack = VerdictPack(
    root_cause: string,
    evidence_links: seq<EvidenceLink>,
    confidence_root_cause: Option<real>,
    confidence_factors: Option<real>,
    contributing_factors: seq<ContributingFactor>,
    counterfactual: Option<string>,
    contradictions: Option<seq<Contradiction>>,
    fix_suggestions: seq<FixSuggestion>)

  /** `z.number().min(0).max(1).optional()`. */
  predicate ValidConfidence(c: Option<real>) {
    c.None? || (0.0 <= c.value <= 1.0)
  }

  /** `verdictPackSchema`. */
  predicate ValidVerdictPack(v: VerdictPack) {
    && |v.evidence_links| >= 1
    && ValidConfidence(v.confidence_root_cause)
    && ValidConfidence(v.confidence_factors)
    && forall i | 0 <= i < |v.fix_suggestions| :: v.fix_suggestions[i].category in FixCategories
  }

  datatype CausalNode = CausalNode(id: string, nodeLabel: string, nodeType: Option<string>,
                                   step_id: Option<string>, metadata: Option<seq<(string, Json)>>)

  datatype CausalEdge = CausalEdge(id: string, source: string, target: string, edgeType: Option<string>)

  datatype CausalGraph = CausalGraph(nodes: seq<CausalNode>, edges: seq<CausalEdge>,
                                     first_divergence_node_id: Option<string>)

  predicate ValidNode(n: CausalNode) {
    n.nodeType.None? || n.nodeType.value in NodeTypes
  }

  predicate ValidEdge(e: CausalEdge) {
    e.edgeType.None? || e.edgeType.value in EdgeTypes
  }

  /** `causalGraphSchema`: only the members' own enumerations are checked. */
  predicate ValidCausalGraph(g: CausalGraph) {
    && (forall i | 0 <= i < |g.nodes| :: ValidNode(g.nodes[i]))
    && (forall i | 0 <= i < |g.edges| :: ValidEdge(g.edges[i]))
  }

  /** The graph a report has before any analysis. */
  const EmptyGraph := CausalGraph([], [], None)

  /** What the verdict schema demands, read back: a non-empty evidence list,
      confidences in [0, 1] inclusive, categories from the five. */
  lemma ValidVerdictPackIff(v: VerdictPack)
    ensures ValidVerdictPack(v) <==>
      && v.evidence_links != []
      && (v.confidence_root_cause.Some? ==> 0.0 <= v.confidence_root_cause.value <= 1.0)
      && (v.confidence_factors.Some? ==> 0.0 <= v.confidence_factors.value <= 1.0)
      && (forall f | f in v.fix_suggestions :: f.category in FixCategories)
  {
    if ValidVerdictPack(v) {
      forall f | f in v.fix_suggestions ensures f.category in FixCategories {
        var i :| 0 <= i < |v.fix_suggestions| && v.fix_suggestions[i] == f;
      }
    }
  }

  /** The bounds are inclusive, and the contributing factors and fix
      suggestions constrain nothing else: any rank, empty factor evidence and
      absent suggestion evidence all pass. */
  lemma VerdictBoundaryCases(link: EvidenceLink, rank: real)
    ensures ValidVerdictPack(VerdictPack("r", [link], Some(0.0), Some(1.0),
      [ContributingFactor(rank, "d", [])], None, None, [FixSuggestion("safety", "d", None)]))
    ensures !ValidVerdictPack(VerdictPack("r", [], None, None, [], None, None, []))
    ensures !ValidVerdictPack(VerdictPack("r", [link], Some(1.5), None, [], None, None, []))
    ensures !ValidVerdictPack(VerdictPack("r", [link], None, None, [], None, None, [FixSuggestion("ui", "d", None)]))
  {
    BoundaryAccepted(link, rank);
    BoundaryRejected(link);
  }

  lemma BoundaryAccepted(link: EvidenceLink, rank: real)
    ensures ValidVerdictPack(VerdictPack("r", [link], Some(0.0), Some(1.0),
      [ContributingFactor(rank, "d", [])], None, None, [FixSuggestion("safety", "d", None)]))
  {
    assert FixCategories[4] == "safety";
  }

  lemma BoundaryRejected(link: EvidenceLink)
    ensures !ValidVerdictPack(VerdictPack("r", [], None, None, [], None, None, []))
    ensures !ValidVerdictPack(VerdictPack("r", [link], Some(1.5), None, [], None, None, []))
    ensures !ValidVerdictPack(VerdictPack("r", [link], None, None, [], None, None, [FixSuggestion("ui", "d", None)]))
  {
    assert forall c | c in FixCategories :: |c| >= 6;
    var bad := VerdictPack("r", [link], None, None, [], None, None, [FixSuggestion("ui", "d", None)]);
    assert bad.fix_suggestions[0].category !in FixCategories;
  }

  /** Graph validity does not tie edges or the first divergence to the nodes:
      a graph with no nodes, a dangling edge and a divergence id is valid. */
  lemma DanglingReferencesAllowed()
    ensures exists g :: ValidCausalGraph(g) && g.nodes == [] && |g.edges| == 1 && g.first_divergence_node_id.Some?
  {
    var g := CausalGraph([], [CausalEdge("e1", "a", "b", None)], Some("a"));
    assert ValidCausalGraph(g);
  }

  lemma EmptyGraphValid()
    ensures ValidCausalGraph(EmptyGraph)
  {
  }
}
