/**
 * The edge-set builder (Loader.constructGraph, writeEdgesToFile, readExistingEdges;
 * Loader.java:36-101): every record is compared with every other record, its four most similar
 * records become its neighbours, and one log line per neighbour is appended to the edge file
 * unless that line is already known. The edge file is a sequence of lines; the rendering of a cost
 * as text is a function given to the builder.
 */
module GraphBuilder {
  import opened Optional
  import opened RecordStore
  import opened Similarity
  import opened Edges
  import opened EdgeLog
  import opened Sequences

  /** A candidate neighbour with its similarity score. */
  type Scored = (SiteRecord, real)

  /** How many neighbours each record gets. */
  const Neighbours := 4

  // ----- Reading the existing edge file -----

  /** Characters that `String.trim` removes: every code point up to and including the space. */
  predicate IsPad(c: char)
  {
    c <= ' '
  }

  function TrimStart(s: string): (r: string)
    ensures |r| <= |s| && r == s[|s| - |r|..]
    ensures r == [] || !IsPad(r[0])
  {
    if s != [] && IsPad(s[0]) then TrimStart(s[1..]) else s
  }

  function TrimEnd(s: string): (r: string)
    ensures |r| <= |s| && r == s[..|r|]
    ensures r == [] || !IsPad(r[|r| - 1])
  {
    if s != [] && IsPad(s[|s| - 1]) then TrimEnd(s[..|s| - 1]) else s
  }

  /** `String.trim`. */
  function Trim(s: string): string
  {
    TrimEnd(TrimStart(s))
  }

  /** No padding at either end. */
  predicate Unpadded(s: string)
  {
    s == [] || (!IsPad(s[0]) && !IsPad(s[|s| - 1]))
  }

  /** A string with no padding at either end is its own trim. */
  lemma TrimUnpadded(s: string)
    requires Unpadded(s)
    ensures Trim(s) == s
  {
  }

  /** Trimming twice is trimming once. */
  lemma TrimIdempotent(s: string)
    ensures Trim(Trim(s)) == Trim(s)
  {
    var t := TrimStart(s);
    var r := TrimEnd(t);
    if r != [] {
      assert r[0] == t[0];
      TrimUnpadded(r);
    }
  }

  /** The trimmed lines, as a set. */
  function TrimmedLines(lines: seq<string>): set<string>
  {
    if lines == [] then {} else TrimmedLines(lines[..|lines| - 1]) + {Trim(lines[|lines| - 1])}
  }

  /** The trimmed lines of the edge file; a missing file gives no line. */
  function KnownLines(file: Option<seq<string>>): set<string>
  {
    match file
    case None => {}
    case Some(lines) => TrimmedLines(lines)
  }

  /** Every line of the file is known once trimmed. */
  lemma {:induction false} TrimmedLinesContain(lines: seq<string>, k: nat)
    requires k < |lines|
    ensures Trim(lines[k]) in TrimmedLines(lines)
  {
    if k < |lines| - 1 {
      var front := lines[..|lines| - 1];
      TrimmedLinesContain(front, k);
      assert front[k] == lines[k];
    }
  }

  /** Reading one more line adds its trimmed form. */
  lemma TrimmedLinesStep(lines: seq<string>, i: nat)
    requires i < |lines|
    ensures TrimmedLines(lines[..i + 1]) == TrimmedLines(lines[..i]) + {Trim(lines[i])}
  {
    assert lines[..i + 1][..i] == lines[..i];
  }

  /** `readExistingEdges`: the file, when it exists, read line by line into a set of trimmed lines. */
  method ReadExistingEdges(file: Option<seq<string>>) returns (existingEdges: set<string>)
    ensures existingEdges == KnownLines(file)
    ensures file.None? ==> existingEdges == {}
  {
    existingEdges := {};
    if file.Some? {
      var lines := file.value;
      var i := 0;
      while i < |lines|
        invariant 0 <= i <= |lines|
        invariant existingEdges == TrimmedLines(lines[..i])
      {
        TrimmedLinesStep(lines, i);
        existingEdges := existingEdges + {Trim(lines[i])};
        i := i + 1;
      }
      assert lines[..i] == lines;
    }
  }

  // ----- Appending edge lines without repeating one -----

  /** The lines the writer appends, in order: each line not yet known, the first time it comes. */
  function NewLines(lines: seq<string>, known: set<string>): seq<string>
  {
    if lines == [] then []
    else if lines[0] in known then NewLines(lines[1..], known)
    else [lines[0]] + NewLines(lines[1..], known + {lines[0]})
  }

  /** What is appended is exactly the lines not known before, each once. */
  lemma {:induction false} NewLinesProperties(lines: seq<string>, known: set<string>)
    ensures forall l :: l in NewLines(lines, known) <==> l in lines && l !in known
    ensures NoDuplicates(NewLines(lines, known))
    decreases |lines|
  {
    if lines != [] {
      var rest := lines[1..];
      if lines[0] in known {
        NewLinesProperties(rest, known);
        forall l | l in lines && l !in known
          ensures l in rest
        {
          var k :| 0 <= k < |lines| && lines[k] == l;
          assert k != 0;
          assert rest[k - 1] == l;
        }
      } else {
        NewLinesProperties(rest, known + {lines[0]});
        var r := NewLines(rest, known + {lines[0]});
        forall l | l in lines && l !in known && l != lines[0]
          ensures l in rest
        {
          var k :| 0 <= k < |lines| && lines[k] == l;
          assert rest[k - 1] == l;
        }
        forall a, b | 0 <= a < b < |[lines[0]] + r|
          ensures ([lines[0]] + r)[a] != ([lines[0]] + r)[b]
        {
          if a == 0 {
            assert ([lines[0]] + r)[b] == r[b - 1];
          } else {
            assert ([lines[0]] + r)[a] == r[a - 1];
            assert ([lines[0]] + r)[b] == r[b - 1];
          }
        }
      }
    }
  }

  /** Lines that are all known already add nothing: running the builder again over the same
   * lines, once the file holds them, appends no line. */
  lemma {:induction false} NothingNewTwice(lines: seq<string>, known: set<string>)
    requires forall l :: l in lines ==> l in known
    ensures NewLines(lines, known) == []
    decreases |lines|
  {
    if lines != [] {
      assert lines[0] in known;
      NothingNewTwice(lines[1..], known);
    }
  }

  /** The known set after the lines: the ones before and every line seen. */
  lemma {:induction false} NewLinesKnownAfter(lines: seq<string>, known: set<string>)
    ensures known + SetOf(NewLines(lines, known)) == known + SetOf(lines)
    decreases |lines|
  {
    NewLinesProperties(lines, known);
  }

  /** The log line for the edge from `node` to one scored neighbour. */
  function LineFor(node: SiteRecord, neighbour: Scored, render: Cost -> string): string
  {
    EdgeLine(node.url, neighbour.0.url, render(NewEdge(node.url, neighbour.0.url, neighbour.1).cost))
  }

  function LinesFor(node: SiteRecord, neighbours: seq<Scored>, render: Cost -> string): (r: seq<string>)
    ensures |r| == |neighbours|
    ensures forall t :: 0 <= t < |r| ==> r[t] == LineFor(node, neighbours[t], render)
  {
    if neighbours == [] then []
    else LinesFor(node, neighbours[..|neighbours| - 1], render) + [LineFor(node, neighbours[|neighbours| - 1], render)]
  }

  /**
   * `writeEdgesToFile`: one line per neighbour, appended only when the known set lacks it,
   * and the known set updated with every line appended.
   */
  method WriteEdgesToFile(node: SiteRecord, similarNodes: seq<Scored>, existingEdges: set<string>, render: Cost -> string)
    returns (written: seq<string>, known: set<string>)
    ensures written == NewLines(LinesFor(node, similarNodes, render), existingEdges)
    ensures known == existingEdges + SetOf(LinesFor(node, similarNodes, render))
  {
    ghost var lines := LinesFor(node, similarNodes, render);
    written := [];
    known := existingEdges;
    var t := 0;
    while t < |similarNodes|
      invariant 0 <= t <= |similarNodes|
      invariant written == NewLines(lines[..t], existingEdges)
      invariant known == existingEdges + SetOf(lines[..t])
    {
      var edge := NewEdge(node.url, similarNodes[t].0.url, similarNodes[t].1);
      var edgeInfo := EdgeLine(edge.source, edge.destination, render(edge.cost));
      LineOfEdge(node, similarNodes[t], render);
      assert edgeInfo == lines[t];
      WriteStep(lines, t, existingEdges);
      if edgeInfo !in known {
        written := written + [edgeInfo];
        known := known + {edgeInfo};
      }
      t := t + 1;
    }
    assert lines[..t] == lines;
  }

  /** The line writeEdgesToFile builds from the edge object is the line of that neighbour. */
  lemma LineOfEdge(node: SiteRecord, neighbour: Scored, render: Cost -> string)
    ensures var edge := NewEdge(node.url, neighbour.0.url, neighbour.1);
            EdgeLine(edge.source, edge.destination, render(edge.cost)) == LineFor(node, neighbour, render)
  {
  }

  /** One line of writeEdgesToFile: appended when unknown, and known afterwards either way. */
  lemma WriteStep(lines: seq<string>, t: nat, existingEdges: set<string>)
    requires t < |lines|
    ensures NewLines(lines[..t + 1], existingEdges) == NewLines(lines[..t], existingEdges) +
      (if lines[t] in existingEdges + SetOf(lines[..t]) then [] else [lines[t]])
    ensures existingEdges + SetOf(lines[..t]) + {lines[t]} == existingEdges + SetOf(lines[..t + 1])
  {
    assert lines[..t + 1] == lines[..t] + [lines[t]];
    NewLinesAppend(lines[..t], [lines[t]], existingEdges);
    SetOfAppend(lines[..t], [lines[t]]);
    assert [lines[t]][1..] == [];
  }

  // ----- Choosing the neighbours -----

  /** The other records, in index order, each with its similarity to record `i`. */
  function CandidateList(records: seq<SiteRecord>, i: nat, similarity: (map<string, int>, map<string, int>) -> real): (r: seq<Scored>)
    requires i < |records|
    ensures |r| == |records| - 1
  {
    seq(|records| - 1, k requires 0 <= k < |records| - 1 =>
      var j := if k < i then k else k + 1;
      (records[j], similarity(records[i].wordFrequency, records[j].wordFrequency)))
  }

  /** Record `j` stands at its index, less one past record `i`, in the candidates of record `i`. */
  lemma CandidateAt(records: seq<SiteRecord>, i: nat, j: nat, similarity: (map<string, int>, map<string, int>) -> real)
    requires i < |records| && j < |records| && j != i
    ensures var k := if j < i then j else j - 1;
            k < |records| - 1 &&
            CandidateList(records, i, similarity)[k] == (records[j], similarity(records[i].wordFrequency, records[j].wordFrequency))
  {
  }

  /** The comparison loop of constructGraph: every record but record `i`, in index order. */
  method Candidates(records: seq<SiteRecord>, i: nat, similarity: (map<string, int>, map<string, int>) -> real)
    returns (candidates: seq<Scored>)
    requires i < |records|
    ensures candidates == CandidateList(records, i, similarity)
  {
    ghost var all := CandidateList(records, i, similarity);
    candidates := [];
    var j := 0;
    while j < |records|
      invariant 0 <= j <= |records|
      invariant |candidates| == if j <= i then j else j - 1
      invariant candidates == all[..|candidates|]
    {
      if i != j {
        CandidateAt(records, i, j, similarity);
        PrefixStep(all, |candidates|);
        candidates := candidates + [(records[j], similarity(records[i].wordFrequency, records[j].wordFrequency))];
      }
      j := j + 1;
    }
    assert all[..|candidates|] == all;
  }

  lemma PrefixStep(all: seq<Scored>, n: nat)
    requires n < |all|
    ensures all[..n + 1] == all[..n] + [all[n]]
  {
  }

  /** Similarities do not increase along the sequence. */
  predicate Descending(top: seq<Scored>)
  {
    forall a, b :: 0 <= a < b < |top| ==> top[a].1 >= top[b].1
  }

  /**
   * `top` is what polling the most similar candidate up to four times can return: as many as
   * possible up to four, taken from the candidates, most similar first, and none left behind is
   * more similar than one taken. Candidates of similarity zero are taken like any other.
   */
  predicate IsTopSelection(top: seq<Scored>, candidates: seq<Scored>)
  {
    |top| == (if |candidates| < Neighbours then |candidates| else Neighbours) &&
    multiset(top) <= multiset(candidates) &&
    Descending(top) &&
    forall y, a :: y in multiset(candidates) - multiset(top) && 0 <= a < |top| ==> y.1 <= top[a].1
  }

  lemma HasMostSimilar(queue: multiset<Scored>) returns (x: Scored)
    requires queue != multiset{}
    ensures x in queue && forall y :: y in queue ==> y.1 <= x.1
  {
    var z :| z in queue;
    if queue == multiset{z} {
      x := z;
    } else {
      var rest := queue - multiset{z};
      assert queue == rest + multiset{z};
      var m := HasMostSimilar(rest);
      x := if m.1 >= z.1 then m else z;
    }
  }

  /** The priority queue of constructGraph, ordered most similar first, polled up to four times. */
  method TopSimilar(candidates: seq<Scored>) returns (top: seq<Scored>)
    ensures IsTopSelection(top, candidates)
  {
    var queue := multiset(candidates);
    top := [];
    var k := 0;
    while k < Neighbours && |queue| > 0
      invariant k == |top| <= Neighbours
      invariant multiset(top) + queue == multiset(candidates)
      invariant Descending(top)
      invariant forall y, a :: y in queue && 0 <= a < |top| ==> y.1 <= top[a].1
      decreases Neighbours - k
    {
      var x := HasMostSimilar(queue);
      var polled :| polled in queue && forall y :: y in queue ==> y.1 <= polled.1;
      PollStep(top, queue, candidates, polled);
      queue := queue - multiset{polled};
      top := top + [polled];
      k := k + 1;
    }
    assert multiset(candidates) - multiset(top) == queue;
  }

  /** Polling the most similar candidate keeps the order and the split between taken and left. */
  lemma PollStep(top: seq<Scored>, queue: multiset<Scored>, candidates: seq<Scored>, polled: Scored)
    requires multiset(top) + queue == multiset(candidates)
    requires Descending(top)
    requires forall y, a :: y in queue && 0 <= a < |top| ==> y.1 <= top[a].1
    requires polled in queue && forall y :: y in queue ==> y.1 <= polled.1
    ensures multiset(top + [polled]) + (queue - multiset{polled}) == multiset(candidates)
    ensures Descending(top + [polled])
    ensures forall y, a :: y in queue - multiset{polled} && 0 <= a < |top + [polled]| ==> y.1 <= (top + [polled])[a].1
  {
    forall a, b | 0 <= a < b < |top + [polled]|
      ensures (top + [polled])[a].1 >= (top + [polled])[b].1
    {
      if b == |top| {
        assert (top + [polled])[a] == top[a];
      } else {
        assert (top + [polled])[a] == top[a] && (top + [polled])[b] == top[b];
      }
    }
    forall y, a | y in queue - multiset{polled} && 0 <= a < |top + [polled]|
      ensures y.1 <= (top + [polled])[a].1
    {
      if a < |top| {
        assert (top + [polled])[a] == top[a];
      }
    }
  }

  /** The lines for all records in order, given the neighbours chosen for each. */
  function AllLines(records: seq<SiteRecord>, chosen: seq<seq<Scored>>, render: Cost -> string): seq<string>
    requires |chosen| == |records|
  {
    if records == [] then []
    else AllLines(records[..|records| - 1], chosen[..|chosen| - 1], render) + LinesFor(records[|records| - 1], chosen[|chosen| - 1], render)
  }

  lemma AllLinesStep(records: seq<SiteRecord>, chosen: seq<seq<Scored>>, top: seq<Scored>, render: Cost -> string)
    requires |chosen| < |records|
    ensures AllLines(records[..|chosen| + 1], chosen + [top], render) ==
      AllLines(records[..|chosen|], chosen, render) + LinesFor(records[|chosen|], top, render)
  {
    var i := |chosen|;
    var front := records[..i + 1];
    var picks := chosen + [top];
    assert front[..i] == records[..i];
    assert picks[..i] == chosen;
    assert front[i] == records[i] && picks[i] == top;
    assert AllLines(front, picks, render) == AllLines(front[..i], picks[..i], render) + LinesFor(front[i], picks[i], render);
  }

  /** Choosing the neighbours of one more record keeps the choices of the earlier ones. */
  lemma ChosenExtend(records: seq<SiteRecord>, chosen: seq<seq<Scored>>, top: seq<Scored>,
                     similarity: (map<string, int>, map<string, int>) -> real)
    requires |chosen| < |records|
    requires forall k :: 0 <= k < |chosen| ==> IsTopSelection(chosen[k], CandidateList(records, k, similarity))
    requires IsTopSelection(top, CandidateList(records, |chosen|, similarity))
    ensures forall k :: 0 <= k < |chosen| + 1 ==> IsTopSelection((chosen + [top])[k], CandidateList(records, k, similarity))
  {
    forall k | 0 <= k < |chosen| + 1
      ensures IsTopSelection((chosen + [top])[k], CandidateList(records, k, similarity))
    {
      if k < |chosen| {
        assert (chosen + [top])[k] == chosen[k];
      }
    }
  }

  lemma {:induction false} NewLinesAppend(a: seq<string>, b: seq<string>, known: set<string>)
    ensures NewLines(a + b, known) == NewLines(a, known) + NewLines(b, known + SetOf(a))
    decreases |a|
  {
    if a == [] {
      assert a + b == b;
      assert known + SetOf(a) == known;
    } else {
      assert (a + b)[0] == a[0];
      assert (a + b)[1..] == a[1..] + b;
      var known' := if a[0] in known then known else known + {a[0]};
      NewLinesAppend(a[1..], b, known');
      assert known' + SetOf(a[1..]) == known + SetOf(a);
    }
  }

  /** One round of constructGraph's loop: the candidates of record `i`, its top four, its lines. */
  method ConnectRecord(records: seq<SiteRecord>, i: nat, existingEdges: set<string>,
                       similarity: (map<string, int>, map<string, int>) -> real, render: Cost -> string)
    returns (written: seq<string>, known: set<string>, ghost top: seq<Scored>)
    requires i < |records|
    ensures IsTopSelection(top, CandidateList(records, i, similarity))
    ensures written == NewLines(LinesFor(records[i], top, render), existingEdges)
    ensures known == existingEdges + SetOf(LinesFor(records[i], top, render))
  {
    var candidates := Candidates(records, i, similarity);
    var topSimilarRecords := TopSimilar(candidates);
    written, known := WriteEdgesToFile(records[i], topSimilarRecords, existingEdges, render);
    top := topSimilarRecords;
  }

  /** Appending the new lines of one more record to those of the records before. */
  lemma AppendedStep(before: seq<string>, mine: seq<string>, known0: set<string>,
                     appended: seq<string>, existingEdges: set<string>, written: seq<string>)
    requires appended == NewLines(before, known0) && existingEdges == known0 + SetOf(before)
    requires written == NewLines(mine, existingEdges)
    ensures appended + written == NewLines(before + mine, known0)
  {
    NewLinesAppend(before, mine, known0);
  }

  lemma KnownStep(before: seq<string>, mine: seq<string>, known0: set<string>, existingEdges: set<string>, known: set<string>)
    requires existingEdges == known0 + SetOf(before) && known == existingEdges + SetOf(mine)
    ensures known == known0 + SetOf(before + mine)
  {
    SetOfAppend(before, mine);
  }

  /**
   * `constructGraph`: for each record, its candidates, its top four, and the new lines for them.
   * `similarity` is the similarity score of two word counts; the source computes it with
   * calculateSimilarity, which needs both counts to hold some word.
   */
  method ConstructGraph(records: seq<SiteRecord>, edgeFile: Option<seq<string>>,
                        similarity: (map<string, int>, map<string, int>) -> real, render: Cost -> string)
    returns (appended: seq<string>, ghost chosen: seq<seq<Scored>>)
    requires forall r :: r in records ==> Occurring(r.wordFrequency)
    requires forall a, b :: Occurring(a) && Occurring(b) ==> similarity(a, b) == CalculateSimilarity(a, b)
    ensures |chosen| == |records|
    ensures forall i :: 0 <= i < |records| ==> IsTopSelection(chosen[i], CandidateList(records, i, similarity))
    ensures appended == NewLines(AllLines(records, chosen, render), KnownLines(edgeFile))
  {
    var existingEdges := ReadExistingEdges(edgeFile);
    appended := [];
    chosen := [];
    var i := 0;
    while i < |records|
      invariant i <= |records| && |chosen| == i
      invariant forall k :: 0 <= k < i ==> IsTopSelection(chosen[k], CandidateList(records, k, similarity))
      invariant appended == NewLines(AllLines(records[..i], chosen, render), KnownLines(edgeFile))
      invariant existingEdges == KnownLines(edgeFile) + SetOf(AllLines(records[..i], chosen, render))
    {
      var written, known, top := ConnectRecord(records, i, existingEdges, similarity, render);
      ChosenExtend(records, chosen, top, similarity);
      ghost var before := AllLines(records[..i], chosen, render);
      ghost var mine := LinesFor(records[i], top, render);
      AllLinesStep(records, chosen, top, render);
      AppendedStep(before, mine, KnownLines(edgeFile), appended, existingEdges, written);
      KnownStep(before, mine, KnownLines(edgeFile), existingEdges, known);
      appended := appended + written;
      existingEdges := known;
      chosen := chosen + [top];
      i := i + 1;
    }
    assert records[..i] == records;
  }

  // ----- A second run -----

  lemma {:induction false} TrimmedLinesAppend(a: seq<string>, b: seq<string>)
    ensures TrimmedLines(a + b) == TrimmedLines(a) + TrimmedLines(b)
    decreases |b|
  {
    if b == [] {
      assert a + b == a;
    } else {
      var front := b[..|b| - 1];
      assert (a + b)[..|a + b| - 1] == a + front;
      TrimmedLinesAppend(a, front);
    }
  }

  /** Lines that are their own trim are read back unchanged. */
  lemma {:induction false} TrimmedLinesOfUnpadded(lines: seq<string>)
    requires forall k :: 0 <= k < |lines| ==> Unpadded(lines[k])
    ensures forall x :: x in TrimmedLines(lines) <==> x in lines
    decreases |lines|
  {
    if lines != [] {
      var front := lines[..|lines| - 1];
      var last := lines[|lines| - 1];
      assert forall k :: 0 <= k < |front| ==> front[k] == lines[k];
      TrimmedLinesOfUnpadded(front);
      assert lines == front + [last];
    }
  }

  /** A log line whose source starts with a visible character has nothing for `trim` to remove:
   * it ends with `]`. */
  lemma EdgeLineUnpadded(source: string, destination: string, costText: string)
    requires source != [] && !IsPad(source[0])
    ensures Unpadded(EdgeLine(source, destination, costText))
  {
    var line := EdgeLine(source, destination, costText);
    assert line[0] == source[0];
    assert line[|line| - 1] == ']';
  }

  /** Every line the builder produces is read back unchanged when no url starts with padding. */
  lemma {:induction false} AllLinesUnpadded(records: seq<SiteRecord>, chosen: seq<seq<Scored>>, render: Cost -> string)
    requires |chosen| == |records|
    requires forall r :: r in records ==> r.url != [] && !IsPad(r.url[0])
    ensures forall l :: l in AllLines(records, chosen, render) ==> Unpadded(l)
    decreases |records|
  {
    if records != [] {
      var last := records[|records| - 1];
      var front := records[..|records| - 1];
      assert forall r :: r in front ==> r in records;
      AllLinesUnpadded(front, chosen[..|chosen| - 1], render);
      var mine := LinesFor(last, chosen[|chosen| - 1], render);
      forall t | 0 <= t < |mine|
        ensures Unpadded(mine[t])
      {
        var n := chosen[|chosen| - 1][t];
        EdgeLineUnpadded(last.url, n.0.url, render(NewEdge(last.url, n.0.url, n.1).cost));
      }
    }
  }

  /** The edge file after a run: the lines it held, then the lines appended. */
  function FileAfter(edgeFile: Option<seq<string>>, appended: seq<string>): seq<string>
  {
    (if edgeFile.Some? then edgeFile.value else []) + appended
  }

  /** Running the builder a second time over the same records, with the same neighbours, appends no
   * line: every line of the first run is in the file, and `readExistingEdges` reads it back as
   * written. */
  lemma SecondRunAddsNothing(records: seq<SiteRecord>, chosen: seq<seq<Scored>>, render: Cost -> string,
                             edgeFile: Option<seq<string>>)
    requires |chosen| == |records|
    requires forall r :: r in records ==> r.url != [] && !IsPad(r.url[0])
    ensures var lines := AllLines(records, chosen, render);
      NewLines(lines, KnownLines(Some(FileAfter(edgeFile, NewLines(lines, KnownLines(edgeFile)))))) == []
  {
    var lines := AllLines(records, chosen, render);
    var known := KnownLines(edgeFile);
    var appended := NewLines(lines, known);
    var previous := if edgeFile.Some? then edgeFile.value else [];
    assert TrimmedLines(previous) == known;
    TrimmedLinesAppend(previous, appended);
    AllLinesUnpadded(records, chosen, render);
    NewLinesProperties(lines, known);
    forall k | 0 <= k < |appended|
      ensures Unpadded(appended[k])
    {
      assert appended[k] in lines;
    }
    TrimmedLinesOfUnpadded(appended);
    NewLinesKnownAfter(lines, known);
    assert KnownLines(Some(FileAfter(edgeFile, appended))) == known + SetOf(lines);
    NothingNewTwice(lines, known + SetOf(lines));
  }
}
