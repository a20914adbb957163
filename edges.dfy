/**
 * The edge value type (Edge.java): two page URLs, the similarity of their word counts, and
 * the cost 1/similarity that the shortest-path search minimises.
 */
module Edges {
  /** A cost: 1/similarity, which is +infinity when the similarity is zero. */
  datatype Cost = Finite(value: real) | Infinite

  /** An edge never changes once built: every field is fixed by NewEdge. */
  datatype Edge = Edge(source: string, destination: string, similarity: real, cost: Cost)

  /** The Edge constructor; the four getters are the fields of the result. */
  function NewEdge(source: string, destination: string, similarity: real): (e: Edge)
    ensures e.source == source && e.destination == destination && e.similarity == similarity
    ensures similarity == 0.0 <==> e.cost == Infinite
    ensures e.cost.Finite? ==> e.cost.value * similarity == 1.0
  {
    Edge(source, destination, similarity, if similarity == 0.0 then Infinite else Finite(1.0 / similarity))
  }

  /** A similarity in (0, 1] gives a finite cost of at least 1; the most similar pages are the closest. */
  lemma CostAtLeastOne(source: string, destination: string, similarity: real)
    requires 0.0 < similarity <= 1.0
    ensures NewEdge(source, destination, similarity).cost.Finite?
    ensures NewEdge(source, destination, similarity).cost.value >= 1.0
  {
    var c := 1.0 / similarity;
    assert c * similarity == 1.0;
  }

  /** A more similar pair never costs more. */
  lemma CostDecreasesWithSimilarity(source: string, destination: string, s1: real, s2: real)
    requires 0.0 < s1 <= s2
    ensures NewEdge(source, destination, s2).cost.value <= NewEdge(source, destination, s1).cost.value
  {
    var c1, c2 := 1.0 / s1, 1.0 / s2;
    assert c1 * s1 == 1.0 && c2 * s2 == 1.0;
    assert c2 * s1 <= c2 * s2;
  }
}
