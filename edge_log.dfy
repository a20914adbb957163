/**
 * The edge log, one edge per line: `<source> -> <destination> [Cost: <cost>]`, as the graph
 * builder writes it (Loader.java:40) and as the query engine reads it back into an adjacency map
 * (GUI.buildGraph, GUI.java:145-164). The text of a cost is an uninterpreted token: the reader is given
 * the number parser as a function `parseCost`.
 */
module EdgeLog {
  import opened Optional
  import opened Graphs
  import opened JavaSplit

  const Arrow := " -> "
  const CostOpen := " [Cost: "

  /** The line written for one edge; `costText` is the rendering of the edge's cost. */
  function EdgeLine(source: string, destination: string, costText: string): string
  {
    source + Arrow + destination + CostOpen + costText + "]"
  }

  /** Length of the separator (`" -> "` or `" [Cost: "`) starting at position `i`, or 0. */
  function SepAt(s: string, i: nat): nat
    requires i <= |s|
  {
    if i + 4 <= |s| && s[i..i + 4] == Arrow then 4
    else if i + 8 <= |s| && s[i..i + 8] == CostOpen then 8
    else 0
  }

  /**
   * The pieces of `s[start..]` cut at every separator, scanning from left to right from
   * position `i` (a separator found is skipped whole before scanning goes on).
   */
  function Scan(s: string, start: nat, i: nat): seq<string>
    requires start <= i <= |s|
    decreases |s| - i
  {
    if i == |s| then [s[start..]]
    else if SepAt(s, i) > 0 then [s[start..i]] + Scan(s, i + SepAt(s, i), i + SepAt(s, i))
    else Scan(s, start, i + 1)
  }

  /**
   * `String.split(" -> | \\[Cost: ")` with no limit: the whole string when no separator
   * occurs, otherwise the pieces with trailing empty pieces removed (a leading empty piece stays).
   */
  function Split(s: string): seq<string>
  {
    SplitResult(Scan(s, 0, 0))
  }

  /** `replaceAll("]", "")`. */
  function RemoveBrackets(s: string): (r: string)
    ensures forall k :: 0 <= k < |r| ==> r[k] != ']'
  {
    if s == [] then []
    else (if s[0] == ']' then [] else [s[0]]) + RemoveBrackets(s[1..])
  }

  /**
   * One line: source, destination and cost, or None where the source throws (fewer than three
   * pieces, or a cost text the number parser rejects). Pieces past the third are ignored.
   */
  function ParseLine(line: string, parseCost: string -> Option<real>): Option<(Vertex, Vertex, real)>
  {
    var parts := Split(line);
    if |parts| < 3 then None
    else
      match parseCost(RemoveBrackets(parts[2]))
      case None => None
      case Some(c) => Some((parts[0], parts[1], c))
  }

  /** `graph.computeIfAbsent(source, ...).put(destination, cost)`. */
  function Put(g: Graph, e: (Vertex, Vertex, real)): Graph
  {
    g[e.0 := (if e.0 in g then g[e.0] else map[])[e.1 := e.2]]
  }

  /** The edges of every line, in order, or None when some line is malformed. */
  function ParseAll(lines: seq<string>, parseCost: string -> Option<real>): Option<seq<(Vertex, Vertex, real)>>
  {
    if lines == [] then Some([])
    else
      match ParseAll(lines[..|lines| - 1], parseCost)
      case None => None
      case Some(es) =>
        match ParseLine(lines[|lines| - 1], parseCost)
        case None => None
        case Some(e) => Some(es + [e])
  }

  /** The adjacency map after putting the edges in order. */
  function Fold(es: seq<(Vertex, Vertex, real)>): Graph
  {
    if es == [] then map[] else Put(Fold(es[..|es| - 1]), es[|es| - 1])
  }

  /** What buildGraph returns for the lines of the log, None where it throws. */
  function GraphOf(lines: seq<string>, parseCost: string -> Option<real>): Option<Graph>
  {
    match ParseAll(lines, parseCost)
    case None => None
    case Some(es) => Some(Fold(es))
  }

  /** No later edge of the sequence has the same source and destination as edge `i`. */
  predicate LastFor(es: seq<(Vertex, Vertex, real)>, i: nat)
    requires i < |es|
  {
    forall j :: i < j < |es| ==> es[j].0 != es[i].0 || es[j].1 != es[i].1
  }

  /** The sources of the map are exactly the sources of the edges. */
  lemma {:induction false} FoldKeys(es: seq<(Vertex, Vertex, real)>)
    ensures forall u :: u in Fold(es) <==> exists i :: 0 <= i < |es| && es[i].0 == u
  {
    if es != [] {
      var front := es[..|es| - 1];
      FoldKeys(front);
      forall u
        ensures u in Fold(es) <==> exists i :: 0 <= i < |es| && es[i].0 == u
      {
        if u in Fold(front) {
          var i :| 0 <= i < |front| && front[i].0 == u;
          assert es[i] == front[i];
        }
        if exists i :: 0 <= i < |es| && es[i].0 == u {
          var i :| 0 <= i < |es| && es[i].0 == u;
          if i < |front| {
            assert front[i] == es[i];
          }
        }
      }
    }
  }

  /**
   * The edges of the map are exactly the (source, destination) pairs of the log, each in its own
   * direction only: reading a line adds no edge back from the destination.
   */
  lemma {:induction false} FoldEdges(es: seq<(Vertex, Vertex, real)>)
    ensures forall u, v :: HasEdge(Fold(es), u, v) <==> exists i :: 0 <= i < |es| && es[i].0 == u && es[i].1 == v
  {
    if es != [] {
      var front := es[..|es| - 1];
      FoldEdges(front);
      forall u, v
        ensures HasEdge(Fold(es), u, v) <==> exists i :: 0 <= i < |es| && es[i].0 == u && es[i].1 == v
      {
        if HasEdge(Fold(front), u, v) {
          var i :| 0 <= i < |front| && front[i].0 == u && front[i].1 == v;
          assert es[i] == front[i];
        }
        if exists i :: 0 <= i < |es| && es[i].0 == u && es[i].1 == v {
          var i :| 0 <= i < |es| && es[i].0 == u && es[i].1 == v;
          if i < |front| {
            assert front[i] == es[i];
          }
        }
      }
    }
  }

  /** Each pair carries the cost of its last line: a later line for the same pair overwrites. */
  lemma {:induction false} FoldLastCost(es: seq<(Vertex, Vertex, real)>, i: nat)
    requires i < |es| && LastFor(es, i)
    ensures HasEdge(Fold(es), es[i].0, es[i].1) && Fold(es)[es[i].0][es[i].1] == es[i].2
  {
    var front := es[..|es| - 1];
    if i < |front| {
      assert es[i] == front[i];
      assert LastFor(front, i) by {
        forall j | i < j < |front|
          ensures front[j].0 != front[i].0 || front[j].1 != front[i].1
        {
          assert front[j] == es[j];
        }
      }
      FoldLastCost(front, i);
    }
  }

  /** The log parses exactly when every line does. */
  lemma {:induction false} ParseAllSucceeds(lines: seq<string>, parseCost: string -> Option<real>)
    ensures ParseAll(lines, parseCost).Some? <==> forall k :: 0 <= k < |lines| ==> ParseLine(lines[k], parseCost).Some?
  {
    if lines != [] {
      var front := lines[..|lines| - 1];
      ParseAllSucceeds(front, parseCost);
      if ParseAll(front, parseCost).None? {
        var k :| 0 <= k < |front| && ParseLine(front[k], parseCost).None?;
        assert lines[k] == front[k];
      } else if ParseLine(lines[|lines| - 1], parseCost).Some? {
        forall k | 0 <= k < |lines|
          ensures ParseLine(lines[k], parseCost).Some?
        {
          if k < |front| {
            assert lines[k] == front[k];
          } else {
            assert k == |lines| - 1;
          }
        }
      }
    }
  }

  /** A log that parses yields the edge of each line, in order. */
  lemma {:induction false} ParseAllEdges(lines: seq<string>, parseCost: string -> Option<real>)
    requires ParseAll(lines, parseCost).Some?
    ensures |ParseAll(lines, parseCost).value| == |lines|
    ensures forall k :: 0 <= k < |lines| ==> ParseLine(lines[k], parseCost) == Some(ParseAll(lines, parseCost).value[k])
  {
    if lines != [] {
      var front := lines[..|lines| - 1];
      ParseAllEdges(front, parseCost);
      var es := ParseAll(front, parseCost).value;
      var e := ParseLine(lines[|lines| - 1], parseCost).value;
      assert ParseAll(lines, parseCost).value == es + [e];
      assert forall k :: 0 <= k < |front| ==> front[k] == lines[k];
    }
  }

  /** The edges buildGraph returns are exactly the (source, destination) pairs of the log's lines. */
  lemma GraphOfEdges(lines: seq<string>, parseCost: string -> Option<real>, u: Vertex, v: Vertex)
    requires GraphOf(lines, parseCost).Some?
    ensures HasEdge(GraphOf(lines, parseCost).value, u, v) <==>
      exists k :: 0 <= k < |lines| && ParseLine(lines[k], parseCost).Some? &&
        ParseLine(lines[k], parseCost).value.0 == u && ParseLine(lines[k], parseCost).value.1 == v
  {
    var es := ParseAll(lines, parseCost).value;
    FoldEdges(es);
    ParseAllEdges(lines, parseCost);
    if HasEdge(Fold(es), u, v) {
      var i :| 0 <= i < |es| && es[i].0 == u && es[i].1 == v;
      assert ParseLine(lines[i], parseCost) == Some(es[i]);
    }
  }

  /** Skipping a stretch that holds no space: no separator can start there. */
  lemma {:induction false} ScanSkips(s: string, start: nat, i: nat, j: nat)
    requires start <= i <= j <= |s|
    requires forall k :: i <= k < j ==> s[k] != ' '
    ensures Scan(s, start, i) == Scan(s, start, j)
    decreases j - i
  {
    if i < j {
      assert s[i] != ' ';
      assert SepAt(s, i) == 0 by {
        if i + 4 <= |s| { assert s[i..i + 4][0] == s[i]; }
        if i + 8 <= |s| { assert s[i..i + 8][0] == s[i]; }
      }
      ScanSkips(s, start, i + 1, j);
    }
  }

  predicate NoSpace(s: string)
  {
    forall k :: 0 <= k < |s| ==> s[k] != ' '
  }

  /**
   * Round trip of one log line: when the page names and the cost text hold no space (so no
   * separator can occur inside them) and the cost text no `]`, the reader splits the written line
   * back into its source, destination and cost text.
   */
  lemma SplitEdgeLine(source: string, destination: string, costText: string)
    requires NoSpace(source) && NoSpace(destination) && NoSpace(costText)
    ensures Split(EdgeLine(source, destination, costText)) == [source, destination, costText + "]"]
  {
    ScanOfEdgeLine(source, destination, costText);
    var raw := [source, destination, costText + "]"];
    assert raw[2] != "";
    assert DropTrailingEmpty(raw) == raw;
  }

  /** The scan cuts a log line whose parts hold no space at its two separators. */
  lemma ScanOfEdgeLine(source: string, destination: string, costText: string)
    requires NoSpace(source) && NoSpace(destination) && NoSpace(costText)
    ensures Scan(EdgeLine(source, destination, costText), 0, 0) == [source, destination, costText + "]"]
  {
    var s := EdgeLine(source, destination, costText);
    EdgeLineSlices(source, destination, costText, s);
    assert NoSpace(costText + "]") by {
      assert forall k :: 0 <= k < |costText| ==> (costText + "]")[k] == costText[k];
    }
    ScanOfPieces(s, |source|, |source| + 4 + |destination|);
  }

  /** A string made of three stretches without spaces joined by the two separators scans into them. */
  lemma ScanOfPieces(s: string, a: nat, b: nat)
    requires a + 4 <= b && b + 8 <= |s|
    requires s[a..a + 4] == Arrow && s[b..b + 8] == CostOpen
    requires NoSpace(s[0..a]) && NoSpace(s[a + 4..b]) && NoSpace(s[b + 8..|s|])
    ensures Scan(s, 0, 0) == [s[0..a], s[a + 4..b], s[b + 8..|s|]]
  {
    SeparatorsOfEdgeLine(s, a, b);
    ScanOfLine(s, a, b);
  }

  /** A string with both separators, in order, and no space elsewhere scans into three pieces. */
  lemma ScanOfLine(s: string, a: nat, b: nat)
    requires a + 4 <= b && b + 8 <= |s|
    requires SepAt(s, a) == 4 && SepAt(s, b) == 8
    requires NoSpace(s[0..a]) && NoSpace(s[a + 4..b]) && NoSpace(s[b + 8..|s|])
    ensures Scan(s, 0, 0) == [s[0..a], s[a + 4..b], s[b + 8..|s|]]
  {
    ScanAfterArrow(s, a + 4, b);
    ScanSeparator(s, 0, a, 4);
  }

  /** After the arrow: the destination, the cost separator and the cost text make two pieces. */
  lemma ScanAfterArrow(s: string, p: nat, b: nat)
    requires p <= b && b + 8 <= |s|
    requires SepAt(s, b) == 8
    requires NoSpace(s[p..b]) && NoSpace(s[b + 8..|s|])
    ensures Scan(s, p, p) == [s[p..b], s[b + 8..|s|]]
  {
    ScanLastPiece(s, b + 8);
    ScanSeparator(s, p, b, 8);
  }

  /** Where the pieces of a log line sit. */
  lemma EdgeLineSlices(source: string, destination: string, costText: string, s: string)
    requires s == EdgeLine(source, destination, costText)
    ensures |s| == |source| + 4 + |destination| + 8 + |costText| + 1
    ensures s[0..|source|] == source && s[|source|..|source| + 4] == Arrow
    ensures s[|source| + 4..|source| + 4 + |destination|] == destination
    ensures s[|source| + 4 + |destination|..|source| + 4 + |destination| + 8] == CostOpen
    ensures s[|source| + 4 + |destination| + 8..|s|] == costText + "]"
  {
  }

  /** The stretch after the last separator is the last piece. */
  lemma ScanLastPiece(s: string, c: nat)
    requires c <= |s| && NoSpace(s[c..|s|])
    ensures Scan(s, c, c) == [s[c..|s|]]
  {
    NoSpaceSlice(s, c, |s|);
    ScanSkips(s, c, c, |s|);
    assert s[c..] == s[c..|s|];
  }

  lemma NoSpaceSlice(s: string, p: nat, q: nat)
    requires p <= q <= |s| && NoSpace(s[p..q])
    ensures forall k :: p <= k < q ==> s[k] != ' '
  {
    assert forall k :: p <= k < q ==> s[k] == s[p..q][k - p];
  }

  /** From `p`, a stretch without spaces up to a separator at `i` makes one piece. */
  lemma ScanSeparator(s: string, p: nat, i: nat, n: nat)
    requires p <= i <= |s| && SepAt(s, i) == n > 0
    requires NoSpace(s[p..i])
    ensures Scan(s, p, p) == [s[p..i]] + Scan(s, i + n, i + n)
  {
    NoSpaceSlice(s, p, i);
    ScanSkips(s, p, p, i);
  }

  /** The separators of a log line are found where the writer put them. */
  lemma SeparatorsOfEdgeLine(s: string, a: nat, b: nat)
    requires a + 4 <= b && b + 8 <= |s|
    requires s[a..a + 4] == Arrow && s[b..b + 8] == CostOpen
    ensures SepAt(s, a) == 4 && SepAt(s, b) == 8
  {
    assert s[b..b + 4] != Arrow by {
      assert s[b..b + 4][1] == s[b..b + 8][1] == '[';
    }
  }

  lemma {:induction false} RemoveBracketsNone(s: string)
    requires forall k :: 0 <= k < |s| ==> s[k] != ']'
    ensures RemoveBrackets(s) == s
  {
    if s != [] {
      RemoveBracketsNone(s[1..]);
    }
  }

  /** The reader recovers the edge the writer wrote, whenever the parser reads back the cost text. */
  lemma ParseEdgeLine(source: string, destination: string, costText: string, parseCost: string -> Option<real>)
    requires NoSpace(source) && NoSpace(destination) && NoSpace(costText)
    requires forall k :: 0 <= k < |costText| ==> costText[k] != ']'
    ensures ParseLine(EdgeLine(source, destination, costText), parseCost) ==
      match parseCost(costText)
      case None => None
      case Some(c) => Some((source, destination, c))
  {
    SplitEdgeLine(source, destination, costText);
    RemoveBracketsNone(costText);
    assert RemoveBrackets(costText + "]") == RemoveBrackets(costText) by {
      RemoveBracketsAppend(costText, "]");
    }
  }

  lemma {:induction false} RemoveBracketsAppend(s: string, t: string)
    ensures RemoveBrackets(s + t) == RemoveBrackets(s) + RemoveBrackets(t)
  {
    if s != [] {
      var head := if s[0] == ']' then [] else [s[0]];
      assert (s + t)[0] == s[0];
      assert (s + t)[1..] == s[1..] + t;
      RemoveBracketsAppend(s[1..], t);
      calc {
        RemoveBrackets(s + t);
        head + RemoveBrackets(s[1..] + t);
        head + (RemoveBrackets(s[1..]) + RemoveBrackets(t));
        (head + RemoveBrackets(s[1..])) + RemoveBrackets(t);
      }
    } else {
      assert s + t == t;
    }
  }

  /** No separator starts anywhere in `s`. */
  predicate NoSeparator(s: string)
  {
    forall i :: 0 <= i < |s| ==> SepAt(s, i) == 0
  }

  /** Scanning a stretch in which no separator starts gives one piece. */
  lemma {:induction false} ScanWithoutSeparator(s: string, start: nat, i: nat)
    requires start <= i <= |s|
    requires forall k :: i <= k < |s| ==> SepAt(s, k) == 0
    ensures Scan(s, start, i) == [s[start..]]
    decreases |s| - i
  {
    if i < |s| {
      ScanWithoutSeparator(s, start, i + 1);
    }
  }

  /** A line in which neither separator occurs makes the whole build fail. */
  lemma LineWithoutSeparatorFails(lines: seq<string>, k: nat, parseCost: string -> Option<real>)
    requires k < |lines| && NoSeparator(lines[k])
    ensures GraphOf(lines, parseCost) == None
  {
    ScanWithoutSeparator(lines[k], 0, 0);
    ParseAllSucceeds(lines, parseCost);
  }

  /**
   * The reading loop of buildGraph: one line at a time, stopping at the first line that fails
   * to split into three pieces or whose cost does not parse.
   */
  method BuildGraph(lines: seq<string>, parseCost: string -> Option<real>) returns (r: Option<Graph>)
    ensures r == GraphOf(lines, parseCost)
  {
    var graph: Graph := map[];
    var i := 0;
    while i < |lines|
      invariant 0 <= i <= |lines|
      invariant ParseAll(lines[..i], parseCost).Some?
      invariant graph == Fold(ParseAll(lines[..i], parseCost).value)
    {
      var parts := Split(lines[i]);
      if |parts| < 3 {
        assert lines[..i + 1][..i] == lines[..i];
        FailurePersists(lines, i + 1, parseCost);
        return None;
      }
      var source := parts[0];
      var destination := parts[1];
      var cost := parseCost(RemoveBrackets(parts[2]));
      if cost.None? {
        assert lines[..i + 1][..i] == lines[..i];
        FailurePersists(lines, i + 1, parseCost);
        return None;
      }
      var row := if source in graph then graph[source] else map[];
      graph := graph[source := row[destination := cost.value]];
      assert lines[..i + 1][..i] == lines[..i];
      i := i + 1;
    }
    assert lines[..i] == lines;
    return Some(graph);
  }

  /** Once a prefix of the log fails, the whole log fails. */
  lemma {:induction false} FailurePersists(lines: seq<string>, n: nat, parseCost: string -> Option<real>)
    requires n <= |lines|
    requires ParseAll(lines[..n], parseCost) == None
    ensures ParseAll(lines, parseCost) == None
    decreases |lines| - n
  {
    if n < |lines| {
      assert lines[..n + 1][..n] == lines[..n];
      FailurePersists(lines, n + 1, parseCost);
    } else {
      assert lines[..n] == lines;
    }
  }
}
