/** Runtime values (row.hpp): what query columns hold and comparisons compare. */
module Values {
  import opened CppArithmetic

  /** A double; zero has one representation, as the comparison does not tell the two apart. */
  datatype Double = NaN | Infinity(negative: bool) | Finite(r: real)

  datatype HandleKind =
    | PathTopologyHandle | VertexHandle | EdgeHandle | PathHandle | ListHandle | MapHandle | BytesHandle

  datatype TemporalKind = DateTimeKind | TimeKind | DurationKind

  datatype Entry = Entry(key: string, value: Value)

  /** The alternatives of the variant. Heavy kinds are handles: `Empty` is one without payload. */
  datatype Value =
    | Null
    | Empty(handle: HandleKind)
    | Bool(b: bool)
    | Int(n: int64)
    | Float(d: Double)
    | Text(s: string)
    | VertexRef(vertex: nat)
    | Vertex(vertex: nat)
    | EdgeKey(edge: nat, src: nat, dst: nat)
    | Edge(edge: nat)
    | Topology(content: seq<nat>)
    | Temporal(kind: TemporalKind, fields: seq<int>)
    | Bytes(data: seq<nat>)
    | List(elements: seq<Value>)
    | Path(elements: seq<Value>)
    | Map(entries: seq<Entry>)

  predicate IsNull(v: Value) {
    v.Null? || v.Empty?
  }
}
