/** The records of the research commons that several modules read. */
module Commons {
  import opened Basics

  type Id = nat       // record identifiers, compared as the store orders them
  type Digest = nat   // digests are taken as injective
  type Branch = nat

  const MAX_COMMONS_MODULES := 200   // modules one import closure may hold

  datatype Rank = Partial | Complete | Verified

  datatype NodeType = Goal | Lemma | Definition | Conjecture | Approach
                    | Tangent | Obstacle | Counterexample | Computation

  /** `Legacy` stands for the ladder values stored before the remediation: they read as open. */
  datatype Status = Open | Legacy | Accepted | Refuted | Abandoned

  /** One import or closure entry: the node and its source's digest (None for a stub). */
  datatype Entry = Entry(node: Id, sha: Option<Digest>)

  datatype Source = Source(sha: Digest, rank: Rank, branch: Option<Branch>,
                           statement: Option<Digest>, imports: seq<Entry>,
                           closure: Option<seq<Entry>>)

  /** `statement` is the digest of the node's Lean statement, when it has one. */
  datatype Node = Node(nodeType: NodeType, status: Status, author: Option<Branch>, createdAt: int,
                       statement: Option<Digest>, elaborated: bool, source: Option<Source>)

  predicate IsOpen(status: Status) {
    status == Open || status == Legacy
  }

  function SourceDigest(node: Node): Option<Digest> {
    if node.source.Some? then Some(node.source.value.sha) else None
  }

  /** What the source's check stood on: its recorded closure, else its direct imports. */
  function Entries(node: Node): seq<Entry> {
    if node.source.None? then []
    else if node.source.value.closure.Some? then node.source.value.closure.value
    else node.source.value.imports
  }

  predicate Recorded(node: Node) {
    node.source.Some? && node.source.value.closure.Some?
  }
}
