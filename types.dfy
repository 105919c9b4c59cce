/** Shared value types of the trains simulation (the shapes used by train.ts and renderer.ts). */
module Types {

  /** An absent value: JavaScript's `undefined`/`null`, or an expression that would throw on it. */
  datatype Option<+T> = None | Some(value: T)

  /** A graph vertex as `makeVertex` builds it: a station name and the weight of the edge it was made for. */
  datatype Vertex = Vertex(name: string, weight: int)

  /** An edge shape a train rides along. Only its name ("A-B") is modelled; its geometry is not. */
  datatype Path = Path(name: string)
}
