/** Shapes shared by the frontend and the backend of the genealogy explorer
    (the interfaces of frontend/types.ts, with optional fields as Option). */
module Types {

  datatype Option<+T> = None | Some(value: T)

  /** How an awaited call ended: it returned a value, or it threw. */
  datatype Settled<+T> = Returned(value: T) | Threw

  /** A hit of the distribution search. */
  datatype SearchResult = SearchResult(uri: string, name: string, description: Option<string>)

  /** One "based on" parent listed in the details of a distribution. */
  datatype BasedOn = BasedOn(name: string, uri: string)

  /** Metadata of one distribution. */
  datatype DistroDetails = DistroDetails(
    uri: string,
    name: string,
    logo: Option<string>,
    description: Option<string>,
    basedOn: Option<seq<BasedOn>>,
    packageManager: Option<string>,
    website: Option<string>)

  /** A node of the genealogy graph; `val` is its importance (1 other, 2 parent, 3 selected). */
  datatype GraphNode = GraphNode(id: string, name: string, val: int, color: Option<string>, logo: Option<string>)

  /** A "based on" edge, from the parent to the derived distribution. */
  datatype GraphLink = GraphLink(source: string, target: string)

  datatype GraphData = GraphData(nodes: seq<GraphNode>, links: seq<GraphLink>)

  const EmptyGraph: GraphData := GraphData([], [])

  /** JavaScript and Python truthiness of an optional string: present and not empty. */
  predicate Truthy(s: Option<string>)
  {
    s.Some? && s.value != ""
  }

  /** Some node of g carries the id. */
  predicate HasNode(g: GraphData, id: string)
  {
    exists n :: n in g.nodes && n.id == id
  }
}
