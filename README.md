# Wikipedia page graph: a Dafny model

The modelled system crawls English Wikipedia, counts the words of each page, links every page to
the four pages whose word counts overlap most with its own, and answers shortest-path questions
over the resulting weighted graph. This project models its core in Dafny and proves what each
step promises:

- **`LinkExtractor`** (`link_extractor.dfy`) is the crawler of `Main.WikipediaLinkExtractor`. It
  fetches pages first in, first out. It collects the valid article links of each page's
  paragraphs, once each. It stops at 1005 links, and it stops taking links from a paragraph
  once the page has given 10. `ProcessParagraph` and `ProcessPage` are the two page loops;
  `PageEnd` and `CrawlRun` state, as functions, which links a page and the whole crawl give.
- **`WordCount`** (`word_count.dfy`) is `Loader.analyzeWebsite`. It lower-cases each paragraph
  and splits it at white space. It counts each word made only of letters that is not a stop
  word.
- **`RecordStore`** (`record_store.dfy`) is the block buffer of `Loader`: `addSiteRecord`,
  `writeBlockToFile` and `flush`. The class `Loader` keeps the buffer, the block counter and
  the blocks written. The datatype `Store` and its step functions state what each method does
  to that state.
- **`Similarity`** (`similarity.dfy`) is `Loader.calculateSimilarity`: the sum of the smaller
  count of each shared word, divided by the smaller of the two totals.
- **`Edges`** (`edges.dfy`) is the `Edge` record. Its cost is `1 / similarity`, and infinite
  when the similarity is zero.
- **`GraphBuilder`** (`graph_builder.dfy`) is `Loader.constructGraph`, `writeEdgesToFile` and
  `readExistingEdges`. It picks each record's neighbours with a priority queue polled at most
  four times. It appends the log lines not yet in the edge file.
- **`EdgeLog`** (`edge_log.dfy`) holds the log line format and `GUI.buildGraph`, which reads the
  lines back into an adjacency map. `JavaSplit` (`java_split.dfy`) holds the part of
  `String.split` that is shared with the word splitter.
- **`Graphs`** (`graphs.dfy`) is the adjacency map, paths and their costs, and reachability.
- **`ShortestPath`** (`shortest_path.dfy`) is `GUI.dijkstra` and `GUI.buildPath`.
  - The search is imperative: a queue, distance and predecessor maps, and a visited set.
  - It is proved to return a cheapest path exactly when the end is reachable.
- **`PathQueries`** (`path_queries.dfy`) is `GUI.calculatePathCost` and
  `GUI.findAlternativePath`. The class `QueryGraph` is removed from and restored to in place,
  edge by edge.
- **`DisjointSets`** (`disjoint_sets.dfy`) is `GUI.findDisjointSets` with its depth-first
  search.

I/O is replaced by values:

- A fetched page is the sequence of link targets of each of its paragraphs, or `None` when the
  fetch fails.
- A file is a sequence of lines, or `None` when it does not exist.
- A block write that may fail takes a boolean outcome.
- Turning a cost into text, and reading a cost back, are functions given to the builder and the
  reader.

In these places the code behaves in ways that are easy to misread; the model follows the code:

- **Index entry after a block write.** `Loader.java:69-72` writes the block before recording
  the index entry. A record that fills the block is therefore indexed at the next block, at
  position -1 (`RecordStore.FlushingAdd`).
- **Flush failure.** `flush` clears the buffer even when the write fails
  (`Loader.java:240`). The buffered records are then lost (`RecordStore.FlushOutcome`).
- **Zero similarity.** Candidates with similarity zero are not filtered. They become edges of
  infinite cost (`Loader.java:88-96`).
- **Malformed edge lines.** A line without both separators, or whose cost does not parse, makes
  `buildGraph` fail as a whole instead of being skipped (`GUI.java:151-154`).
- **Per-page limit.** The 10-links-per-page check leaves only the paragraph at hand
  (`Main.java:41-43`). Each later paragraph of the page can still give one link.
- **Disjoint sets.** The search follows edges forward only, because the reverse edge is
  commented out (`GUI.java:159`). The groups are connected components only when the graph is
  symmetric.

## Model

| member | source | states |
|---|---|---|
| Edges.NewEdge | Edge.java:9-14 | the edge keeps its endpoints and similarity; its cost is infinite exactly when the similarity is zero, and otherwise cost times similarity is 1 |
| Edges.CostAtLeastOne | Edge.java:13 | a similarity in (0, 1] gives a finite cost of at least 1 |
| Edges.CostDecreasesWithSimilarity | Edge.java:13 | a higher similarity never gives a higher cost |
| Similarity.Sum | Loader.java:217-218 | defines the total of a count table: the sum of its values, taking the keys in no fixed order |
| Similarity.SumRemove | Loader.java:217-218 | the total of a count table is one entry plus the total of the rest, whichever entry is taken first (the sum does not depend on hash order) |
| Similarity.SumNonNegative | Loader.java:217-218 | totals of non-negative counts are non-negative, and positive when one count is positive |
| Similarity.SumMonotone | Loader.java:221 | a table below another entry by entry has a total no larger |
| Similarity.Overlap | Loader.java:213-221 | the common words are exactly the words of both tables, each with a count no larger than in either table |
| Similarity.Ratio | Loader.java:222 | the quotient lies in [0, 1], is 0 exactly when the numerator is 0, is 1 exactly when numerator and denominator agree, and times the denominator gives back the numerator |
| Similarity.CalculateSimilarity | Loader.java:210-223 | the similarity of two non-empty tables lies in [0, 1] |
| Similarity.TotalsPositive | Loader.java:217-218 | both totals are positive, so the division is defined |
| Similarity.OverlapAtMostTotals | Loader.java:221-222 | the common total lies between 0 and the smaller total |
| Similarity.SimilaritySymmetric | Loader.java:210-223 | the similarity does not depend on the order of the two pages |
| Similarity.SimilarityWithItself | Loader.java:210-223 | a page is fully similar to itself (1.0) |
| Similarity.SimilarityOfDisjoint | Loader.java:210-223 | pages without a common word have similarity 0 |
| Similarity.SimilarityOfOverlapping | Loader.java:210-223 | one common word makes the similarity positive |
| WordCount.Lower | Loader.java:163 | lower-casing keeps the length and leaves no upper-case letter |
| WordCount.RunEnd | Loader.java:165 | a run of white space ends at the end of the text or at a character that is not white space |
| WordCount.RunsFromText | Loader.java:165 | every piece cut at white-space runs holds no white space and only characters of the text |
| WordCount.SplitWordsFromText | Loader.java:165 | the same for the result of the split, trailing empty pieces removed |
| WordCount.AllWordsLowerCase | Loader.java:162-165 | every word of every paragraph is free of upper case and white space |
| WordCount.SplitWords | Loader.java:165 | defines `split("\\s+")`: the text cut at every run of white space, trailing empty pieces dropped, the whole text when there is no run |
| WordCount.AllWords | Loader.java:162-165 | defines the words the loops visit: each paragraph lower-cased and split, paragraphs in order |
| WordCount.Counted | Loader.java:168 | defines which words are counted: not one of the 26 stop words of `createStopWordsSet` (the constant `StopWords`) and made only of ASCII letters, the empty word included |
| WordCount.TallyStep | Loader.java:167-170 | counting one more word keeps every counted entry equal to its number of occurrences; a stop word or a word with a non-letter changes nothing |
| WordCount.TallyLowerCase | Loader.java:168 | every key of the table consists of letters a to z |
| WordCount.CountInto | Loader.java:167-171 | the inner loop extends a correct tally by one paragraph's words |
| WordCount.CountWords | Loader.java:160-171 | each key is a counted word (letters only, not a stop word) whose value is its number of occurrences; every counted word that occurs is a key; keys are lower case |
| RecordStore.WriteBlock | Loader.java:225-234 | defines `writeBlockToFile`: on success the buffer is stored under the block counter, the counter moves on and the buffer is cleared; on failure nothing changes |
| RecordStore.AddStep | Loader.java:66-73 | defines `addSiteRecord`: append the record, write the block when the buffer reaches the block size, then index the url at the current counter and the last buffer position |
| RecordStore.FlushStep | Loader.java:237-242 | defines `flush`: a non-empty buffer is written and then cleared whatever the write's outcome; an empty one changes nothing |
| RecordStore.NonFlushingAdd | Loader.java:66-73 | when the buffer does not fill, the record is appended and indexed at the current block and its buffer position |
| RecordStore.FlushingAdd | Loader.java:66-73 | when the buffer fills and the write succeeds, the block is stored, the buffer emptied and the record indexed at the next block, position -1 |
| RecordStore.FailedWriteAdd | Loader.java:225-234 | a failed write leaves block counter, disk and buffer (with the new record) as they were, and the index entry still finds the record |
| RecordStore.AddLocatesUnlessWritten | Loader.java:66-73 | the index entry finds the record if and only if no block was written by the add |
| RecordStore.BufferStaysBelowBlockSize | Loader.java:67-71 | with writes succeeding the buffer never reaches the block size |
| RecordStore.BlocksExtend | Loader.java:226-229 | writing the next block appends its records to those stored |
| RecordStore.BlocksUnchanged | Loader.java:226-229 | writing a block leaves the earlier blocks as they were |
| RecordStore.WriteBlockKeeps | Loader.java:225-234 | a block write, successful or not, keeps every record stored in order |
| RecordStore.AddKeepsRecords | Loader.java:66-73 | after an add the stored records (blocks then buffer) are the old ones followed by the new record |
| RecordStore.FlushOutcome | Loader.java:237-242 | a flush empties the buffer; on success it keeps every record, on failure only the written blocks remain; the block counter advances only on a successful non-empty flush |
| RecordStore.FlushIdempotent | Loader.java:237-242 | a second flush changes nothing |
| RecordStore.LocationKept | Loader.java:66-73 | an index entry that locates its record keeps locating it after a block write, any later add and a successful flush, since the blocks on disk are exactly those numbered below the counter and are never overwritten |
| RecordStore.RecordIndex.constructor | Loader.java:123 | the index starts empty |
| RecordStore.RecordIndex.Put | Loader.java:72 | the entry for the url is replaced by the new location, all others kept |
| RecordStore.Loader.constructor | Loader.java:30-34 | the loader starts with an empty buffer, block 0 and nothing written |
| RecordStore.Loader.WriteBlockToFile | Loader.java:225-234 | on success the buffer becomes the next block, the counter advances and the buffer is cleared; on failure nothing changes |
| RecordStore.Loader.AddSiteRecord | Loader.java:66-73 | the new state is the add step of the old one, and the index gains the location the step computes |
| RecordStore.Loader.Flush | Loader.java:237-242 | the new state is the flush step of the old one |
| JavaSplit.SplitResult | GUI.java:151 | defines what `String.split` returns for the pieces cut at each separator: the input alone when no separator occurred, otherwise the pieces without trailing empty ones |
| JavaSplit.DropTrailingEmpty | GUI.java:151 | the result is a prefix of the pieces, ends in a non-empty piece, and only empty pieces were dropped |
| EdgeLog.Split | GUI.java:151 | defines the `split` of the edge line: the line cut at every ` -> ` and every ` [Cost: `, as `String.split` returns it |
| EdgeLog.ParseLine | GUI.java:151-154 | defines reading one line: source, destination and the parsed cost with `]` removed; none when there are fewer than three pieces or the cost does not parse, the two cases that throw |
| EdgeLog.RemoveBrackets | GUI.java:154 | no `]` remains |
| EdgeLog.RemoveBracketsNone | GUI.java:154 | a text without `]` is unchanged |
| EdgeLog.RemoveBracketsAppend | GUI.java:154 | removing brackets distributes over concatenation |
| EdgeLog.ScanSkips | GUI.java:151 | a stretch without spaces holds no separator, so the scan passes over it |
| EdgeLog.ScanSeparator | GUI.java:151 | the text before a separator is one piece, and scanning resumes after it |
| EdgeLog.ScanLastPiece | GUI.java:151 | the text after the last separator is the last piece |
| EdgeLog.ScanAfterArrow | GUI.java:151 | destination and cost text are the last two pieces |
| EdgeLog.ScanOfLine | GUI.java:151 | a line with both separators in order and no other space splits into three pieces |
| EdgeLog.SeparatorsOfEdgeLine | Loader.java:40 | the separators the writer puts are found where it put them |
| EdgeLog.EdgeLineSlices | Loader.java:40 | where source, arrow, destination, cost prefix and cost text sit in a written line |
| EdgeLog.ScanOfPieces | GUI.java:151 | a line with an arrow and a cost prefix in order, and no other space, splits into the three texts around them |
| EdgeLog.ScanOfEdgeLine | Loader.java:40 | a written line, with source, destination and cost text free of spaces, scans into source, destination and cost text with its `]` |
| EdgeLog.SplitEdgeLine | GUI.java:151-153 | splitting a written line gives back source, destination and cost text with its `]` |
| EdgeLog.ParseEdgeLine | GUI.java:151-154 | reading a written line gives back the edge whenever the cost text parses, and fails when it does not |
| EdgeLog.ScanWithoutSeparator | GUI.java:151 | a text holding neither separator splits into itself alone |
| EdgeLog.LineWithoutSeparatorFails | GUI.java:151-153 | a line holding neither separator makes the whole build fail (`parts[1]` is out of bounds) |
| EdgeLog.FailurePersists | GUI.java:150-154 | once a line fails, the build fails whatever follows |
| EdgeLog.ParseAllSucceeds | GUI.java:150-155 | the build succeeds if and only if every line parses |
| EdgeLog.ParseAllEdges | GUI.java:150-155 | a successful build has one edge per line, the edge that line parses to |
| EdgeLog.Put | GUI.java:157 | defines `computeIfAbsent(source, ...).put(destination, cost)`: the source's neighbour map, empty if absent, with the destination set to the cost |
| EdgeLog.Fold | GUI.java:150-157 | defines the map after putting the edges of the lines in order |
| EdgeLog.GraphOf | GUI.java:145-164 | defines what `buildGraph` returns: the fold of the parsed lines, or none when some line throws |
| EdgeLog.FoldKeys | GUI.java:157 | the adjacency map has a key exactly for each source read |
| EdgeLog.FoldEdges | GUI.java:157 | the map has an edge u to v exactly when some line reads u to v |
| EdgeLog.FoldLastCost | GUI.java:157 | an edge read several times keeps the cost of its last line |
| EdgeLog.GraphOfEdges | GUI.java:145-164 | the graph built from the lines has an edge u to v exactly when some line parses to it; no reverse edges are added |
| EdgeLog.BuildGraph | GUI.java:145-164 | the read loop returns the graph of the lines, or fails exactly when some line is malformed |
| GraphBuilder.Trim | Loader.java:59 | defines `String.trim`: the text without leading and trailing characters at or below the space |
| GraphBuilder.TrimStart | Loader.java:59 | the result is a suffix of the text and starts with a character above the space |
| GraphBuilder.TrimEnd | Loader.java:59 | the result is a prefix of the text and ends with a character above the space |
| GraphBuilder.TrimUnpadded | Loader.java:59 | a line without padding at either end is its own trim |
| GraphBuilder.TrimIdempotent | Loader.java:59 | trimming twice is trimming once |
| GraphBuilder.KnownLines | Loader.java:52-64 | defines `readExistingEdges`: the trimmed lines of the edge file, and none when the file does not exist |
| GraphBuilder.TrimmedLinesContain | Loader.java:55-61 | every line of the file is known once trimmed |
| GraphBuilder.TrimmedLinesStep | Loader.java:58-59 | reading one more line adds exactly its trimmed form |
| GraphBuilder.ReadExistingEdges | Loader.java:52-64 | the known lines are the trimmed lines of the file, and none when the file does not exist |
| Sequences.SetOfAppend | Loader.java:45 | the lines of a concatenation are the lines of both parts |
| GraphBuilder.NewLines | Loader.java:42-46 | defines the lines `writeEdgesToFile` appends: each line not known, at its first occurrence, in order |
| GraphBuilder.NewLinesProperties | Loader.java:42-46 | a line is appended if and only if it is among the lines and not known, and no line is appended twice |
| GraphBuilder.NothingNewTwice | Loader.java:42-46 | lines that are all known already append nothing |
| GraphBuilder.NewLinesKnownAfter | Loader.java:42-45 | afterwards the known set holds every line seen |
| GraphBuilder.NewLinesAppend | Loader.java:76-99 | deduplicating two batches in turn, sharing the known set, is deduplicating them together |
| GraphBuilder.LineFor | Loader.java:39-40 | defines the log line of one neighbour: `source -> destination [Cost: c]` with the cost of the edge built from the similarity |
| GraphBuilder.LinesFor | Loader.java:38-40 | one log line per neighbour, in order |
| GraphBuilder.LineOfEdge | Loader.java:39-40 | the line built from the edge object is that neighbour's log line |
| GraphBuilder.WriteStep | Loader.java:42-46 | one loop step appends the line exactly when it is not yet known, and afterwards it is known |
| GraphBuilder.WriteEdgesToFile | Loader.java:36-51 | the appended lines are the new lines of this record's neighbours, first occurrence only; the known set gains every one of its lines |
| GraphBuilder.CandidateList | Loader.java:83-90 | every other record is a candidate, so there is one fewer than the records |
| GraphBuilder.CandidateAt | Loader.java:83-90 | record j stands at index j before i and at j - 1 after it, with its similarity to record i |
| GraphBuilder.Candidates | Loader.java:83-90 | the comparison loop builds the candidate list, skipping the record itself |
| GraphBuilder.IsTopSelection | Loader.java:93-96 | defines what polling the most similar candidate up to four times may give: min(4, candidates) of them, most similar first, none left behind more similar than one taken |
| GraphBuilder.HasMostSimilar | Loader.java:95 | a non-empty queue holds a candidate at least as similar as any other |
| GraphBuilder.PollStep | Loader.java:94-95 | polling the most similar candidate keeps the taken ones in descending order, and none left behind is more similar |
| GraphBuilder.TopSimilar | Loader.java:93-96 | the neighbours are min(4, candidates) of the candidates, as a sub-multiset, in descending similarity, and no candidate left out is more similar than one taken |
| GraphBuilder.AllLinesStep | Loader.java:77-100 | the lines for one more record follow those for the earlier records |
| GraphBuilder.ChosenExtend | Loader.java:77-100 | choosing one more record's neighbours keeps the earlier choices valid |
| GraphBuilder.AppendedStep | Loader.java:99 | the lines appended for one more record continue the deduplicated sequence |
| GraphBuilder.KnownStep | Loader.java:99 | the known set after one more record holds all lines so far |
| GraphBuilder.ConnectRecord | Loader.java:78-99 | one record's neighbours are a top selection of its candidates, and its appended lines are the unknown ones among their log lines |
| GraphBuilder.TrimmedLinesAppend | Loader.java:57-59 | reading two files one after the other gives the trimmed lines of both |
| GraphBuilder.TrimmedLinesOfUnpadded | Loader.java:59 | lines without padding at either end are read back as written |
| GraphBuilder.EdgeLineUnpadded | Loader.java:40 | a log line whose source url starts with a visible character has no padding, since it ends with `]` |
| GraphBuilder.AllLinesUnpadded | Loader.java:40 | when no url starts with padding, every line the builder produces is read back as written |
| GraphBuilder.SecondRunAddsNothing | Loader.java:36-59 | a second run over the same records, with the same neighbours, appends no line to the file left by the first run (missing or not), when no url starts with padding |
| GraphBuilder.ConstructGraph | Loader.java:75-101 | every record gets a top selection of the others by similarity; the appended lines are exactly the log lines of all chosen edges, in order, minus those already in the file or appended earlier |
| Graphs.PathCost | GUI.java:168-172 | defines the cost of a path: the costs of its consecutive edges summed from the front |
| Graphs.PathCostNonNegative | GUI.java:166-174 | with positive costs a path costs at least 0, and more than 0 when it has an edge |
| Graphs.PrefixCostAtMost | GUI.java:44-50 | a prefix of a path is a path costing no more |
| Graphs.AppendCost | GUI.java:46 | extending a path by an edge adds that edge's cost |
| Graphs.ReachableRefl | GUI.java:122-123 | every vertex reaches itself |
| Graphs.ReachablePrepend | GUI.java:124-127 | an edge followed by a path is a path |
| Graphs.ReachableFromKeys | GUI.java:135-141 | a vertex is in the graph exactly when some key reaches it |
| ShortestPath.Chain | GUI.java:61-63 | the predecessor walk from a vertex ends at that vertex and begins at a vertex with no predecessor |
| ShortestPath.BuildPath | GUI.java:59-71 | the result is empty exactly when the walk does not begin at the start; otherwise it is the walk, from start to end |
| ShortestPath.SetHasMinimum | GUI.java:27 | a non-empty set has a vertex of least distance |
| ShortestPath.QueueHasMinimum | GUI.java:37 | the queue always holds a vertex of least distance |
| ShortestPath.FirstUnvisited | GUI.java:36-54 | a path leaving the visited set has a first unvisited vertex |
| ShortestPath.CrossingBound | GUI.java:36-54 | the first unvisited vertex on a path from the start has a distance no greater than the cost of the path so far |
| ShortestPath.PolledIsSettled | GUI.java:37 | the polled vertex's distance is at most the cost of any given path to it |
| ShortestPath.PolledVertexIsSettled | GUI.java:37 | the polled vertex's distance is at most the cost of every path to it |
| ShortestPath.PollKeepsInvariants | GUI.java:37-41 | polling and marking visited keeps the search invariants, and the polled distance is final |
| ShortestPath.FirstVisitKeepsDistInv | GUI.java:41 | marking a vertex visited keeps every recorded distance the cost of its predecessor path |
| ShortestPath.PollKeepsFrontier | GUI.java:37-41 | every reached unvisited vertex other than the polled one stays queued |
| ShortestPath.RelaxOnePreserves | GUI.java:46-50 | recording a shorter distance and its predecessor keeps distances equal to path costs and the vertex queued |
| ShortestPath.SkipKeepsBounds | GUI.java:45-47 | a visited or not improved neighbour is already within bound |
| ShortestPath.ImproveKeepsBounds | GUI.java:47-50 | an improved neighbour is within bound after the update |
| ShortestPath.RelaxNeighbours | GUI.java:44-53 | after the loop over the polled vertex's edges every unvisited neighbour has a distance within that vertex's distance plus the edge cost, and the invariants hold |
| ShortestPath.Poll | GUI.java:37 | removes a queued vertex of least distance, which is then final |
| ShortestPath.VisitMakesProgress | GUI.java:36-54 | each round visits a new vertex or shortens the queue |
| ShortestPath.ChainIsPath | GUI.java:59-63 | the predecessor walk of a reached vertex is a path from the start costing its distance |
| ShortestPath.NothingReachesUnvisited | GUI.java:36-54 | when the queue runs dry the start reaches no unvisited vertex |
| ShortestPath.FoundPathIsShortest | GUI.java:38-39 | when the end is polled, the path built is a path from start to end no costlier than any other |
| ShortestPath.ExhaustedMeansUnreachable | GUI.java:36-57 | when the queue runs dry before the end is polled, the end is unreachable and the path is empty |
| ShortestPath.Search | GUI.java:24-54 | the search either polls the end with its final distance or exhausts everything reachable |
| ShortestPath.Dijkstra | GUI.java:23-57 | the path is non-empty exactly when the end is reachable; it then goes from start to end and is no costlier than any other path; a start equal to the end gives the one-vertex path |
| PathQueries.CalculatePathCost | GUI.java:166-174 | the total is the sum of the path's edge costs, non-negative, and positive when the path has an edge |
| PathQueries.WithoutEdge | GUI.java:208 | the graph keeps its keys and every edge but the one removed |
| PathQueries.SubgraphPath | GUI.java:208-211 | a path without the edge is a path of the whole graph, at the same cost |
| PathQueries.UsesRemovedEdge | GUI.java:203-208 | the shortest path itself is not a path once one of its edges is removed |
| PathQueries.WithoutEdgeKeepsSearchable | GUI.java:208-211 | removing an edge keeps the graph fit for the search |
| PathQueries.RestoreEdge | GUI.java:214 | putting the edge back with its cost restores the graph exactly |
| PathQueries.SearchWithoutEdge | GUI.java:207-211 | a path found without the edge avoids it and is the cheapest such path |
| PathQueries.QueryGraph.constructor | GUI.java:179 | the query graph holds the graph read |
| PathQueries.QueryGraph.FindAlternativePath | GUI.java:197-222 | the graph is unchanged afterwards; a path of at most two vertices gives no alternative; an alternative is a cheapest path avoiding one edge of the shortest path, and removing any earlier edge of it left the end unreachable; no alternative means removing any one of its edges leaves the end unreachable |
| DisjointSets.Collect | GUI.java:121-129 | the search visits the start and only vertices reachable from it, adds exactly the newly visited ones to the group, and leaves no edge out of them unvisited |
| DisjointSets.ClosedHoldsReachable | GUI.java:121-129 | a set closed under edges holds everything its members reach |
| DisjointSets.KeysCoverVertices | GUI.java:135-141 | a closed set holding every key holds every vertex |
| DisjointSets.PartitionAdd | GUI.java:137-139 | adding the newly visited vertices as a group keeps a partition of the visited set |
| DisjointSets.AddGroup | GUI.java:136-140 | after each search the groups partition the visited vertices, each rooted at a key |
| DisjointSets.ClosedGroupsAreComponents | GUI.java:131-144 | groups closed under edges contain everything their members reach |
| DisjointSets.OrderStep | GUI.java:136-140 | appending a new search's set keeps the groups, in the order found, covering the visited vertices and each closed up to the groups before it |
| DisjointSets.FindDisjointSets | GUI.java:131-144 | the groups partition the vertices and each is reachable from its root; listed in the order found, every edge leaving a group ends in it or in a group found earlier; for a symmetric graph each group is a connected component |
| LinkExtractor.IsValidWikipediaLink | Main.java:58-63 | defines `isValidWikipediaLink`: starts with the article prefix, holds no `#`, does not end in an image suffix and holds no digit, with Java's `.` not matching line terminators |
| LinkExtractor.ValidLinkShape | Main.java:58-63 | a valid link starts with the article prefix, holds no `#`, and, barring line terminators, holds no digit and no image suffix |
| LinkExtractor.NoImageSuffix | Main.java:61 | no image suffix ends a text whose last five characters hold no dot |
| LinkExtractor.PrefixIsPlain | Main.java:59 | the article prefix holds no `#`, digit or line terminator |
| LinkExtractor.ArticleLinkChars | Main.java:59-62 | the link of a plain title holds no `#`, digit or line terminator, and no dot near its end |
| LinkExtractor.ArticleLinkIsValid | Main.java:58-63 | the article link of a title of letters and underscores is valid |
| Sequences.AppendFresh | Main.java:34 | adding a link not yet collected keeps the links free of repeats |
| LinkExtractor.LinkStep | Main.java:33-44 | defines one step of the inner loop: a valid link not yet collected is collected and taken, and the `break` is set at 10 links for the page or 1005 collected; otherwise nothing changes |
| LinkExtractor.ParagraphScan | Main.java:32-45 | defines the inner loop: the link steps over a paragraph's links in order, none after the `break` |
| LinkExtractor.PageScan | Main.java:26-46 | defines the outer loop: the paragraphs in order, none once 1005 links are collected, each starting with the `break` undone |
| LinkExtractor.PageEnd | Main.java:25-46 | defines where one page ends: the page scan from the links collected before it and no link taken yet |
| LinkExtractor.ParagraphScanTakes | Main.java:34-43 | a valid link not yet collected is collected and appended to the page's new links, and the paragraph is left once the page has given 10 or the cap is reached |
| LinkExtractor.ParagraphScanSkips | Main.java:34 | an invalid or already collected link changes nothing |
| LinkExtractor.ParagraphScanStops | Main.java:41-43 | once the `break` is taken the rest of the paragraph is not read |
| LinkExtractor.PageScanGives | Main.java:26-31 | a paragraph reached below the cap is read from the point the earlier paragraphs left, with the `break` undone |
| LinkExtractor.PageScanStops | Main.java:27-29 | once the cap is reached no further paragraph is read |
| LinkExtractor.ParagraphGrows | Main.java:32-45 | reading a paragraph only adds to the collected links and the page's new links, each new one not collected before, and a `break` is only ever taken at a limit |
| LinkExtractor.PageGrows | Main.java:26-46 | reading the paragraphs of a page only adds to the collected links and the page's new links, each new one not collected before |
| LinkExtractor.FlattenOnPage | Main.java:26-32 | a link is among the page's links in reading order exactly when some paragraph holds it |
| LinkExtractor.LinkSound | Main.java:34-39 | taking one link keeps the new links valid, fresh, from the page, without repeats, and the collected set at most 1005 and exactly the old one plus them |
| LinkExtractor.ParagraphSound | Main.java:32-45 | the same holds after a whole paragraph |
| LinkExtractor.PageSound | Main.java:26-46 | the same holds after a whole page, starting from the links collected before it |
| LinkExtractor.PageEndSound | Main.java:25-46 | the page's new links are taken once each from the page, valid and not collected before; the collected set grows by exactly them and stays at most 1005 |
| LinkExtractor.NewValidAppend | Main.java:26-45 | the new valid links of two link lists read in turn are those of the first, then those of the second not taken by the first |
| LinkExtractor.NewValidCovers | Main.java:34 | a valid link of the list is either collected already or among its new valid links |
| LinkExtractor.NewValidStep | Main.java:34-39 | while no `break` is taken, one link step appends it exactly when it is valid and new |
| LinkExtractor.ParagraphUnbroken | Main.java:32-45 | a paragraph read without the `break` gives exactly its new valid links, in order |
| LinkExtractor.NewValidJoin | Main.java:26-46 | the new valid links of the earlier paragraphs followed by those of the next paragraph are those of all of them |
| LinkExtractor.PageUnbroken | Main.java:25-46 | a page that gives fewer than 10 links and stays below the cap gives exactly the new valid links of its paragraphs, in reading order |
| LinkExtractor.NewValidCoversPage | Main.java:26-45 | the collected links together with a page's new valid links hold every valid link of the page |
| LinkExtractor.ParagraphKeep | Main.java:32-45 | there is one take-or-skip mark per link of the paragraph |
| LinkExtractor.PageKeep | Main.java:26-46 | there is one take-or-skip mark per link of the page, in reading order |
| LinkExtractor.ParagraphInOrder | Main.java:32-45 | the links a paragraph gives follow those before it, in the order they stand in the paragraph |
| LinkExtractor.PageInOrder | Main.java:26-46 | the links a page gives are the links of its paragraphs kept in reading order |
| LinkExtractor.ProcessParagraph | Main.java:31-45 | the inner loop ends where the paragraph scan does; each link taken is written, queued and counted |
| LinkExtractor.ProcessPage | Main.java:25-46 | the collected set and the links written and queued are exactly where the page scan ends; they are new valid links of the page, in the order they stand on it, without repeats; the collected set grows by exactly them and never beyond 1005; unless 10 links were taken or the cap was reached, they are all the new valid links of the page and every valid link of the page is collected |
| LinkExtractor.CoveredGrows | Main.java:34 | links once collected stay collected, so a page all of whose valid links are collected stays so |
| LinkExtractor.CompleteStep | Main.java:19-46 | processing one more page keeps every earlier page that gave fewer than 10 links complete, and adds the new page on the same terms |
| LinkExtractor.CrawlRun | Main.java:19-51 | defines the links the crawl writes from a queue and a collected set: nothing when the queue is empty or 1005 are collected; otherwise the head page's `PageEnd` links, queued behind the rest, followed by the rest of the crawl; a page that fails to fetch gives nothing |
| LinkExtractor.CrawlRunStep | Main.java:19-51 | the output of the crawl is the links of the first page polled, then the output of the rest of the crawl; a page that fails to fetch gives none |
| LinkExtractor.CrawlProgress | Main.java:19 | the termination measure (links still allowed, queue length) decreases when a round collects a link or shortens the queue |
| LinkExtractor.FoundOnMorePages | Main.java:19-22 | a link's page stays among the processed pages |
| LinkExtractor.FoundOnNewPage | Main.java:22-39 | links taken from a fetched page were found on it |
| LinkExtractor.SkipPage | Main.java:47-50 | a page that fails to fetch is only moved from the queue to the processed pages |
| LinkExtractor.QueueStep | Main.java:20-38 | the processed pages followed by the queue are always the seeds followed by the links written |
| LinkExtractor.VisitPage | Main.java:20-45 | processing a fetched page keeps the crawl invariant |
| Sequences.NoDuplicatesAppend | Main.java:34 | two repeat-free link lists with nothing in common concatenate without repeats |
| LinkExtractor.ExtractLinks | Main.java:12-56 | the links written are exactly the crawl run from the seeds, page by page in first-in-first-out order; they are valid, free of repeats, at most 1005, each found on a page that fetched; pages are processed first in, first out, seeds first; the crawl ends only with an empty queue or 1005 links; every fetched page that gave fewer than 10 links has all its valid links written, unless it was the last page and the cap was reached |

## Left out

- **I/O.** Jsoup fetching, file reading and writing, `ObjectOutputStream` and the Swing window
  are not modelled.
  - Pages, files and write outcomes are parameters.
  - An `IOException` from the writer in the middle of a page is not modelled.
  - The partial file left by a failed block write is not modelled.
- **Persistent stores.** `PersistentHashTable` and `SiteRecord` are not part of this model.
  - The index is a map from url to (block, position).
  - `hashTable.addEdge` and `saveToFile` are left out, because nothing reads them back.
- **Unmodelled Loader code.** The static `wordFrequencyTable`, `loadUrlsFromFile` and
  `Loader.main` are glue around the modelled operations.
- **Floating point.** Costs and similarities are exact reals.
  - Writing a cost as text, and reading it with `Double.parseDouble`, are given functions.
  - A line with an `Infinity` or `NaN` cost is outside the model.
  - Rounding in `1 / similarity` and in the sums of path costs is not modelled.
- **Integer width.** Word counts and their sums are unbounded integers; Java's 32-bit overflow
  is not modelled.
- **Hash order.** `HashMap` and `HashSet` iteration order is not modelled: sets and maps are
  used.
  - The groups of `findDisjointSets` depend on the order in which the keys are taken, unless
    the graph is symmetric. `DisjointSets.FindDisjointSets` leaves that order open; for every
    order it states that each group holds all its members reach outside the groups found before.
  - Among equally similar candidates, the ones `PriorityQueue` polls first are not fixed;
    `GraphBuilder.TopSimilar` may return any of them.
- **Text handling.** `toLowerCase` is modelled for ASCII letters only; locale rules and
  non-ASCII case mappings are left out. `\s` is the six ASCII white-space characters, as in
  Java's default regular expressions.
- ShortestPath.Poll: the queue is a multiset from which a vertex of least current distance is
  taken. Java's `PriorityQueue` does not reorder entries whose distance drops after insertion,
  so its heap can return a different vertex. The proved optimality assumes the least vertex is
  polled.
- ShortestPath.Dijkstra: requires every destination of an edge to be a key, and every cost to
  be positive. Java throws a `NullPointerException` (`GUI.java:47`) only when it relaxes an edge
  into a vertex that is not a key, and runs normally when it meets no such edge; those graphs
  are excluded. Graphs read from the builder's edge file meet both requires: every destination
  is a crawled record with its own lines, and a finite cost is at least 1.
- PathQueries.CalculatePathCost: requires every step of the path to be an edge. Java throws a
  `NullPointerException` (`GUI.java:171`) otherwise. Its one caller passes a path returned by
  the search, which meets this.
- PathQueries.QueryGraph.FindAlternativePath: requires the shortest path's steps to be edges
  when it has more than two vertices. Otherwise `GUI.java:208` throws on a source that is
  not a key, or removes nothing and `GUI.java:214` puts a null cost back. Its one caller passes the path returned by the search.
- Similarity.CalculateSimilarity: defined only for two tables that are non-empty with positive
  counts. Java returns `NaN` (0.0 / 0) when a page has no counted word.
- GraphBuilder.ConstructGraph: the similarity is a function parameter required to agree with
  `Similarity.CalculateSimilarity` on non-empty tables. That function is a ghost function,
  since its sums range over map keys in no fixed order.
- LinkExtractor.ExtractLinks: completeness is stated only for pages that gave fewer than 10
  links. A page cut short by the limit has the links `PageEnd` gives, in order, but which of its
  valid links are missing is not listed.
