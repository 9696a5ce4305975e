/** The node/edge document the serializers produce (graphology's import format). */
module Documents {
  import opened Wrappers
  import opened Tasks
  import opened Decimal

  /** `attributes` of a node record; `color`, `size` and `data` are absent in some serializers. */
  datatype NodeAttributes = NodeAttributes(
    labelText: string,
    x: real,
    y: real,
    color: Option<string>,
    size: Option<real>,
    data: Option<NodeData>)

  datatype NodeRecord = NodeRecord(key: string, attributes: NodeAttributes)

  /** `attributes` of an edge record: `type`, and `kind` and `size` where present. */
  datatype EdgeAttributes = EdgeAttributes(edgeType: string, kind: Option<string>, size: Option<real>)

  datatype EdgeRecord = EdgeRecord(key: string, source: string, target: string, attributes: EdgeAttributes)

  /** `{"nodes": [...], "edges": [...]}`. */
  datatype Document = Document(nodes: seq<NodeRecord>, edges: seq<EdgeRecord>)

  const Arrow := "arrow"

  /** The edge keys are `str(0)`, `str(1)`, ... in emission order. */
  predicate DenseKeys(edges: seq<EdgeRecord>)
  {
    forall k :: 0 <= k < |edges| ==> edges[k].key == NatToString(k)
  }

  /** Dense keys are unique within the document. */
  lemma {:induction false} DenseKeysUnique(edges: seq<EdgeRecord>)
    requires DenseKeys(edges)
    ensures forall i, j :: 0 <= i < j < |edges| ==> edges[i].key != edges[j].key
  {
    forall i, j | 0 <= i < j < |edges| ensures edges[i].key != edges[j].key {
      NatToStringInjective(i, j);
    }
  }

  /** The (source, target) pair of an edge record. */
  function Endpoints(r: EdgeRecord): (string, string)
  {
    (r.source, r.target)
  }
}
