# Actor graph: a verified model

The repository reads a tab-separated file of (actor, movie title, year)
records into an actor–actor multigraph. Every actor is a node. Every pair of
actors who share a movie is meant to be linked by a pair of directed edges,
one for each direction. (As written, the loader links each later actor of a
movie only with the movie's first actor; see Findings.) Two programs run on
the graph:

- an unweighted breadth-first search for a path between two actors
  (`findUnweightedPath`), fed by pairs read from a query file;
- a collaborator recommender (`predictCollaborate`, `predictNew`). It scores
  candidates by counting shared movies, sorts them with `compare` and keeps
  the first four.

The project models these with the source's own shapes:

- **Movie key** (`Movies`): a datatype, with both of its comparison
  operators.
- **`Edge` and `Node`** (`ActorNodes`): classes whose fields the methods
  update in place.
- **Priority-queue comparators** (`Comparators`).
- **Graph** (`ActorGraphs`): the graph as a class with a ghost abstract value.
  The loader `LoadFromFile` is proved to build exactly `GraphSpec.LoadInto` of
  its lines.
- **Path search** (`PathFinder`): a class-level model of the breadth-first
  search.
- **Ranking** (`Ranking`): `compare` plus an in-place sort of an array.
- **Predictors** (`LinkPredictor`): both predictors, loop by loop.

Records are split on tabs the way a `getline(ss, str, '\t')` loop splits them
(`Records`). `std::string::operator<` is modelled as lexicographic order
(`Lex`).

Facts about the code that readers may not expect:

- As written, the search marks no node as visited. It resets only the
  self-loop edges it checked; back-pointers are left as they are.
- No weighted search or spanning-tree algorithm exists in the code, so none is
  modelled.

Two defects of the loader are corrected in `GraphSpec.AddRecord`, which the
rest of the model uses:

- the stored cast now grows;
- movies are keyed, and edges labelled, by title and year rather than by bare
  title.

`LoadFindings` shows each defect as written. `predictCollaborate` is modelled
as written. `LinkPredictor.PredictCollaborateExcludingSelf` is its
corrected version.

## Model

| member | source | states |
|---|---|---|
| Movies.Equals | src/ActorGraph/Movie.hpp:15-17 | `operator==`: title and year both agree |
| Movies.Less | src/ActorGraph/Movie.hpp:19 | `operator<`: the titles alone, in string order |
| Movies.EqualsIsIdentity | src/ActorGraph/Movie.hpp:15-17 | `==` holds exactly when title and year both agree |
| Movies.EqualsIsEquivalence | src/ActorGraph/Movie.hpp:15-17 | `==` is reflexive, symmetric and transitive |
| Movies.LessIsStrictOrder | src/ActorGraph/Movie.hpp:19 | `<` (titles only) is irreflexive, asymmetric and transitive |
| Movies.EqualMoviesUnordered | src/ActorGraph/Movie.hpp:15-19 | movies that are `==` are not ordered by `<` either way |
| Movies.SameTitleOtherYearInconsistent | src/ActorGraph/Movie.hpp:15-19 | same title, other year: neither `==` nor ordered, so the two operators disagree on what one key is |
| Lex.LexIrreflexive | src/linkpredictor.cpp:108 | no string sorts before itself |
| Lex.LexAsymmetric | src/linkpredictor.cpp:108 | two strings never sort each before the other |
| Lex.LexTransitive | src/linkpredictor.cpp:108 | string order is transitive |
| Lex.LexTotal | src/linkpredictor.cpp:108 | distinct strings are always ordered |
| ActorNodes.YearWeightSteps | src/ActorGraph/Edge.cpp:14-15 | a 2019 movie weighs 1, each earlier year adds 1; `MAX_WEIGHT` is 2147483647 |
| ActorNodes.Edge.constructor | src/ActorGraph/Edge.cpp:25-31 | ends, movie stored; unchecked; weight `1 + (2019 - year)` |
| ActorNodes.Edge.UpdateWeight | src/ActorGraph/Edge.cpp:39 | weight becomes exactly the argument; nothing else may change |
| ActorNodes.Edge.GetWeight | src/ActorGraph/Edge.cpp:46 | returns the stored weight |
| ActorNodes.Edge.GetName | src/ActorGraph/Edge.cpp:54 | returns the stored movie |
| ActorNodes.Edge.Check | src/ActorGraph/Edge.cpp:60 | the edge is checked; only the mark may change |
| ActorNodes.Edge.IsChecked | src/ActorGraph/Edge.cpp:67 | reports the mark |
| ActorNodes.Edge.UnCheck | src/ActorGraph/Edge.cpp:74-77 | back to the constructed state (unchecked, year weight) whatever came before, hence idempotent |
| ActorNodes.Edge.GetSource | src/ActorGraph/Edge.cpp:84 | returns the source node |
| ActorNodes.Edge.GetDest | src/ActorGraph/Edge.cpp:91 | returns the destination node |
| ActorNodes.Node.constructor | src/ActorGraph/Node.cpp:29-35 | name stored, no edges, null `prev`/`sentinel`/`base`, `pathWeight == MAX_WEIGHT`, not done (field default at Edge.hpp:110-111) |
| ActorNodes.Node.AddEdgeTo | src/ActorGraph/Node.cpp:45-48 | appends exactly one fresh edge from this node to `other` for the movie, constructed state; earlier edges kept in order |
| ActorNodes.Node.AddEdge | src/ActorGraph/Node.cpp:89 | the list becomes the old list plus the given edge |
| ActorNodes.Node.Check | src/ActorGraph/Node.cpp:55 | sets `done` |
| ActorNodes.Node.IsDone | src/ActorGraph/Node.cpp:80 | reports `done` |
| ActorNodes.Node.Uncheck | src/ActorGraph/Node.cpp:68-74 | back to the fresh-node scratch state; name and edges outside the frame, hence idempotent |
| ActorNodes.Node.GetPathWeight | src/ActorGraph/Node.cpp:61 | returns the stored path weight |
| ActorNodes.Node.SetStart | src/ActorGraph/Node.cpp:137-140 | `prev` null, path weight 0; `done`/`sentinel`/`base` outside the frame |
| ActorNodes.Node.SetBase | src/ActorGraph/Node.cpp:147 | stores `base` |
| ActorNodes.Node.GetBase | src/ActorGraph/Node.cpp:153 | returns `base` |
| ActorNodes.Node.SetSentinel | src/ActorGraph/Node.cpp:96 | stores `sentinel` |
| ActorNodes.Node.GetSentinel | src/ActorGraph/Node.cpp:102 | returns `sentinel` |
| ActorNodes.Node.SetPrev | src/ActorGraph/Node.cpp:110-116 | a null edge leaves `prev` as it was; any other becomes `prev`; only `prev` may change |
| ActorNodes.Node.SetPrevWeighted | src/ActorGraph/Node.cpp:124-130 | null: no change; otherwise `prev` set and path weight is `w` plus the edge's weight |
| ActorNodes.Node.GetPrev | src/ActorGraph/Node.cpp:161 | returns `prev` |
| ActorNodes.Node.GetName | src/ActorGraph/Node.cpp:175 | returns the name |
| ActorNodes.Node.GetEdges | src/ActorGraph/Node.cpp:168 | returns the edge list |
| ActorNodes.Node.FindEdge | src/ActorGraph/Node.cpp:185-193 | null exactly when no edge leads to the name; otherwise the first edge in list order that does |
| Comparators.NodePairComp | src/ActorGraph/Edge.hpp:269-274 | the comparator on (node, weight) pairs, as written |
| Comparators.NodePairCompMeaning | src/ActorGraph/Edge.hpp:269-274 | `lhs` ranks below `rhs` iff heavier, or equal weight and later name: lowest weight, then lowest name, served first |
| Comparators.NodePairCompStrictOrder | src/ActorGraph/Edge.hpp:269-274 | irreflexive, asymmetric, transitive |
| Comparators.NodePairCompTotal | src/ActorGraph/Edge.hpp:269-274 | pairs differing in weight or name are always ordered |
| Comparators.EdgeComp | src/ActorGraph/Edge.hpp:290-295 | the comparator on edges, as written, with its guard comparing `rhs` with itself |
| Comparators.EdgeCompIsWeightOnly | src/ActorGraph/Edge.hpp:290-295 | the self-comparing guard never fires: plain `lhs.weight > rhs.weight` |
| Comparators.EdgeCompStrict | src/ActorGraph/Edge.hpp:290-295 | irreflexive and asymmetric |
| Comparators.EdgeCompNoTieBreak | src/ActorGraph/Edge.hpp:290-295 | equal weights are unordered in both directions |
| Records.Fields | src/ActorGraph/ActorGraph.cpp:60-67 | the fields the `getline` loop pushes: the tab-separated pieces without an empty last one |
| Records.SplitRecord | src/ActorGraph/ActorGraph.cpp:57-67 | the field loop yields `Fields(s)`: the pieces between tabs, without an empty last piece |
| Records.JoinSplit | src/ActorGraph/ActorGraph.cpp:60-67 | joining the pieces with tabs gives back the line |
| Records.SplitJoin | src/ActorGraph/ActorGraph.cpp:60-67 | splitting tab-joined tab-free pieces gives back the pieces |
| Records.FieldsOfJoin | src/ActorGraph/ActorGraph.cpp:60-67 | tab-free fields with a non-empty last one are read back exactly |
| Records.SplitHasNoTabs | src/ActorGraph/ActorGraph.cpp:65 | no field contains a tab |
| Records.DigitsRoundTrip | src/ActorGraph/ActorGraph.cpp:76 | reading the decimal digits of a year gives the year |
| GraphSpec.WithActor | src/ActorGraph/ActorGraph.cpp:82-103 | the actor's existing node is kept; an unknown actor gets a new node with no edges |
| GraphSpec.AddPair | src/ActorGraph/ActorGraph.cpp:107-114 | one turn of the edge loop: `actor -> c` on the actor's list, then `c -> actor` on `c`'s |
| GraphSpec.Connect | src/ActorGraph/ActorGraph.cpp:105-115 | the edge loop over the cast in order; the set of actors is unchanged |
| GraphSpec.AddRecord | src/ActorGraph/ActorGraph.cpp:79-117 | every cast member stays a node after a record |
| GraphSpec.MalformedRowIgnored | src/ActorGraph/ActorGraph.cpp:69-72 | a row not of exactly three fields leaves the graph unchanged |
| GraphSpec.HeaderIgnored | src/ActorGraph/ActorGraph.cpp:51-55 | the first line is skipped whatever it holds |
| GraphSpec.AddRecordExtends | src/ActorGraph/ActorGraph.cpp:79-117 | one node per name (existing kept, a new one starts empty), edge lists and casts only grow, the cast gains the actor at its end |
| GraphSpec.FirstRecordAddsNoEdge | src/ActorGraph/ActorGraph.cpp:79-91 | the first record of a movie adds no edge |
| GraphSpec.KnownMovieRecord | src/ActorGraph/ActorGraph.cpp:105-115 | any record of a known movie: the actor's list gains `OwnLinks` of the cast, which is exactly `actor -> c` per member in cast order when the cast lacks the actor; every other actor `k` gains one `k -> actor` per occurrence |
| GraphSpec.RecordEdgeCounts | src/ActorGraph/ActorGraph.cpp:105-115 | per list, edges grow by the actor's cast occurrences (the actor's own list by the cast size), so by 2·\|cast\| in all |
| GraphSpec.ConnectExtends | src/ActorGraph/ActorGraph.cpp:105-115 | the edge loop only appends |
| GraphSpec.ConnectCounts | src/ActorGraph/ActorGraph.cpp:105-115 | each list grows by the number of times its actor is in the cast, the actor's own list by one per cast member |
| GraphSpec.ConnectActorContents | src/ActorGraph/ActorGraph.cpp:105-115 | whatever the cast holds, the actor's list gains exactly `actor -> c` for each member `c` in cast order, followed by a second `actor -> actor` where `c` is the actor (a repeated record) |
| GraphSpec.OwnLinksOfOthers | src/ActorGraph/ActorGraph.cpp:107-110 | with the actor not in the cast, those gains are exactly one `actor -> c` per member |
| GraphSpec.ConnectCoStarContents | src/ActorGraph/ActorGraph.cpp:111-114 | every other actor gains exactly one `k -> actor` edge per occurrence in the cast |
| GraphSpec.ConnectLinksAll | src/ActorGraph/ActorGraph.cpp:105-115 | after the loop, actor and every cast member are linked both ways |
| GraphSpec.AddRecordInvariants | src/ActorGraph/ActorGraph.cpp:105-115 | every record keeps edges mirrored (as many `x->y` as `y->x` per movie) and leading to known actors |
| GraphSpec.AddRecordCastsLinked | src/ActorGraph/ActorGraph.cpp:105-116 | every record keeps every two members of each cast linked both ways |
| GraphSpec.AddLine | src/ActorGraph/ActorGraph.cpp:57-117 | every cast member stays a node after a data line |
| GraphSpec.Build | src/ActorGraph/ActorGraph.cpp:45-118 | every cast member stays a node after the data lines |
| GraphSpec.BuildCoherent | src/ActorGraph/ActorGraph.cpp:45-118 | any run of data lines keeps edges mirrored, well formed and every cast linked |
| GraphSpec.LoadCoherent | src/ActorGraph/ActorGraph.cpp:37-126 | a loaded graph is mirrored, well formed, and links every two co-stars both ways |
| GraphSpec.BuildKeepsCasts | src/ActorGraph/ActorGraph.cpp:79-117 | later lines never remove anyone from a cast |
| GraphSpec.RowActorInCast | src/ActorGraph/ActorGraph.cpp:74-117 | the actor of each three-field row ends in its movie's cast and in the graph |
| GraphSpec.LoadedRowActorInCast | src/ActorGraph/ActorGraph.cpp:74-117 | each three-field line puts its actor in its movie's cast and in the graph |
| ActorGraphs.ActorGraph.constructor | src/ActorGraph/ActorGraph.cpp:25 | an empty graph: no actors, no movies |
| ActorGraphs.ActorGraph.NamesDistinct | src/ActorGraph/ActorGraph.cpp:82-103 | no two nodes share a name |
| ActorGraphs.ActorGraph.ActorNode | src/ActorGraph/ActorGraph.cpp:96-103 | existing node reused, changing nothing; otherwise one fresh edgeless node stored under the name |
| ActorGraphs.ActorGraph.LinkPair | src/ActorGraph/ActorGraph.cpp:107-114 | two fresh unchecked edges, `a -> b` on `a`'s list then `b -> a` on `b`'s |
| ActorGraphs.ActorGraph.AddOwnedEdge | src/ActorGraph/ActorGraph.cpp:107-110 | one fresh unchecked edge `a -> b` appended to `a`'s list; nothing else in the abstract graph changes |
| ActorGraphs.ActorGraph.StoreCast | src/ActorGraph/ActorGraph.cpp:91 | the movie's stored cast becomes the given nodes' names; the rest of the graph is unchanged |
| ActorGraphs.ActorGraph.ConnectToCast | src/ActorGraph/ActorGraph.cpp:105-115 | the heap edge loop realises `Connect` over the cast's names |
| ActorGraphs.ActorGraph.InsertRecord | src/ActorGraph/ActorGraph.cpp:74-117 | one record changes the graph exactly as `AddRecord`, keeping the representation and invariants |
| ActorGraphs.ActorGraph.ReadLine | src/ActorGraph/ActorGraph.cpp:57-117 | one data line changes the graph exactly as `AddLine` |
| ActorGraphs.ActorGraph.LoadFromFile | src/ActorGraph/ActorGraph.cpp:37-126 | returns true and the graph becomes `LoadInto(old, lines)`, header skipped |
| ActorGraphs.ActorGraph.GetActorNode | src/ActorGraph/ActorGraph.cpp:134-139 | null exactly for an unknown name; otherwise the stored node, whose edges spell the actor's links |
| ActorGraphs.ActorGraph.GetMovieCast | src/ActorGraph/ActorGraph.cpp:148-153 | the stored cast in record order, empty for an unknown movie |
| LoadFindings.AddRecordCopiedCast | src/ActorGraph/ActorGraph.cpp:79-117 | one record as written: the edges are added but the stored cast is not extended; every cast member stays a node |
| LoadFindings.AddRecordByTitle | src/ActorGraph/ActorGraph.cpp:79-117 | one record keyed and labelled by the bare title; every cast member stays a node |
| LoadFindings.CopiedCastDropsCoStars | src/ActorGraph/ActorGraph.cpp:94-116 | as written, three records of one movie leave the cast `["A"]` and never link B with C |
| LoadFindings.GrowingCastLinksCoStars | src/ActorGraph/ActorGraph.cpp:105-116 | corrected, the cast is `["A","B","C"]` and every pair is linked both ways |
| LoadFindings.TitleKeyMergesFilms | src/ActorGraph/ActorGraph.cpp:79-112 | as written, the actors of a 2000 and a 2010 film of one title are linked as co-stars |
| LoadFindings.MovieKeySeparatesFilms | src/ActorGraph/ActorGraph.cpp:79-112 | keyed by title and year, they get two casts and no edge |
| LoadFindings.RecordLinksOnlyItsFilm | src/ActorGraph/ActorGraph.cpp:105-115 | corrected, every new edge carries the record's own movie |
| PathFinder.OpenEdgesFacts | src/pathfinder.cpp:77-88 | the edges a search may follow are the unchecked ones between distinct nodes, each on its source's list |
| PathFinder.ClearEdges | src/pathfinder.cpp:104-108 | every listed edge is unchecked with its year weight; only their marks and weights may change |
| PathFinder.ExpandNode | src/pathfinder.cpp:73-91 | every self-loop of the node is checked and recorded, and none is queued; checked edges are skipped; every other edge's end is queued with that edge as its back-pointer |
| PathFinder.Visit | src/pathfinder.cpp:58-91 | one dequeued node keeps the frontier invariant: back-pointers valid, followable edges out of expanded nodes reach queued or expanded nodes |
| PathFinder.Explore | src/pathfinder.cpp:50-92 | the loop stops at the end node with valid back-pointers, or with the queue empty and the expanded set closed, or out of fuel |
| PathFinder.Reconstruct | src/pathfinder.cpp:65-71 | the back-pointer walk gives a chain of followable edges from start to end; empty when start is end |
| PathFinder.ClosedBlocks | src/pathfinder.cpp:56-94 | no walk over followable edges leaves a closed set, so an emptied queue means no path |
| PathFinder.SearchFrom | src/pathfinder.cpp:50-94 | a returned path is a walk over the edges followable on entry; empty for distinct nodes means none exists; start = end gives `[]`; checked edges reset |
| PathFinder.FindUnweightedPath | src/pathfinder.cpp:44-95 | unknown first actor: `[]`; same actor: `[]`; a path is a walk between the two actors; `[]` for two distinct known actors means no walk exists; every edge is unchanged or a reset self-loop, unchecked edges stay unchecked |
| SearchFindings.Expand | src/pathfinder.cpp:73-91 | on names: every end of a non-self-loop edge is queued again and its back-pointer overwritten |
| SearchFindings.Search | src/pathfinder.cpp:56-92 | on names: the queue loop until the end is popped, for at most `fuel` pops |
| SearchFindings.BackWalk | src/pathfinder.cpp:66-70 | on names: the back-pointer walk from the end towards the start, for at most `fuel` steps |
| SearchFindings.PairRecords | src/ActorGraph/ActorGraph.cpp:79-115 | a movie's first two records, the second actor new: one edge each way and a cast of two |
| SearchFindings.ChainGraphEdges | src/ActorGraph/ActorGraph.cpp:79-115 | the six records `A M1`, `B M1`, `B M2`, `C M2`, `C M3`, `D M3` load into the chain A - B - C - D |
| SearchFindings.ChainReachable | src/pathfinder.cpp:44-95 | in that chain D is reachable from A |
| SearchFindings.ExpandOne | src/pathfinder.cpp:73-91 | a node with one edge: its end queued and pointed back |
| SearchFindings.ExpandTwo | src/pathfinder.cpp:73-91 | a node with two edges: both ends queued in list order, back-pointers set in that order |
| SearchFindings.SearchStep | src/pathfinder.cpp:56-91 | one turn of the queue loop that does not pop the end |
| SearchFindings.ChainSearch | src/pathfinder.cpp:56-92 | query A to D, as written: D is popped on the 7th turn with back-pointers D: C->D, C: B->C, B: C->B |
| SearchFindings.TwoCycleStuck | src/pathfinder.cpp:66-70 | with those back-pointers no walk from B, C or D reaches A, whatever the fuel |
| SearchFindings.BackPointerWalkCycles | src/pathfinder.cpp:44-95 | as written, D is reachable from A and is popped, yet the back-pointer walk from D never returns |
| SearchFindings.ExpandMarkedRanked | src/pathfinder.cpp:73-91 | corrected (a node queued and pointed back only when new): expanding keeps every back-pointer an edge of the graph from a node discovered earlier |
| SearchFindings.SearchMarkedRanked | src/pathfinder.cpp:56-92 | corrected: when the end is popped it has been discovered, with the back-pointers ranked |
| SearchFindings.RankedBackWalk | src/pathfinder.cpp:66-70 | over ranked back-pointers, the walk from a discovered node reaches the start within its rank, along edges of the graph |
| SearchFindings.MarkedSearchReturnsWalk | src/pathfinder.cpp:44-95 | corrected: whenever the end is popped, the walk returns within one step per back-pointer, and returns a walk from start to end over the graph's edges |
| PathFinder.ReadPair | src/pathfinder.cpp:138-158 | first field is the first actor, the last later field the second, `""` when missing |
| PathFinder.ParsePathFile | src/pathfinder.cpp:116-168 | header skipped, one pair per row, rows with an empty first actor dropped |
| PathFinder.QueryRoundTrip | src/pathfinder.cpp:138-158 | a row `a TAB b` of non-empty tab-free names reads back as `(a, b)` |
| PathFinder.PairsOfRows | src/pathfinder.cpp:138-164 | rows written from pairs of non-empty tab-free names read back as exactly those pairs |
| PathFinder.PathFileRoundTrip | src/pathfinder.cpp:116-168 | a header plus one row per pair reads back as exactly the pairs, whatever the header |
| PathFinder.PairsOfFacts | src/pathfinder.cpp:159-162 | no pair has an empty first actor; at most one pair per row |
| Ranking.Compare | src/linkpredictor.cpp:104-110 | `compare`: higher priority first, then the name that sorts first |
| Ranking.CompareStrictOrder | src/linkpredictor.cpp:104-110 | `compare` is irreflexive, asymmetric and transitive |
| Ranking.CompareTotal | src/linkpredictor.cpp:104-110 | distinct pairs are always ordered |
| Ranking.NotAfterTransitive | src/linkpredictor.cpp:104-110 | "not after" is transitive, as sorting needs |
| Ranking.TopNames | src/linkpredictor.cpp:94-100 | `min(4, n)` names, those of the first entries in order |
| Ranking.SortByCompare | src/linkpredictor.cpp:93 | the array ends sorted by `compare`, a permutation of its contents |
| Ranking.InsertAt | src/linkpredictor.cpp:93 | one insertion step extends the sorted prefix, keeps the multiset, and leaves `a[i + 1..]` as it was |
| Ranking.SwapDown | src/linkpredictor.cpp:93 | two neighbouring entries exchanged, every other entry unchanged, same multiset |
| Ranking.RankTop | src/linkpredictor.cpp:93-101 | the names are the top ranking of the pairs given |
| Ranking.RankingUnique | src/linkpredictor.cpp:93 | one sorting of a set of distinct pairs exists, so the arrival order does not matter |
| Ranking.TopRankingUnique | src/linkpredictor.cpp:93-101 | the returned names depend only on the set of pairs |
| Ranking.TopRankingMembers | src/linkpredictor.cpp:94-100 | `min(4, \|S\|)` names, each of a pair of `S` |
| Ranking.PermutationNoDup | src/linkpredictor.cpp:93 | sorting cannot create duplicates |
| LinkPredictor.EdgesToPositive | src/linkpredictor.cpp:45-52 | an actor is counted exactly when some edge leads to it |
| LinkPredictor.SumOverRemove | src/linkpredictor.cpp:82-86 | a sum over a map's keys does not depend on iteration order |
| LinkPredictor.SumOverZeros | src/linkpredictor.cpp:62-79 | collaborators without an edge from the candidate add nothing |
| LinkPredictor.Score | src/linkpredictor.cpp:56-91 | a candidate's priority: Σ over the actor's collaborators `n` other than the candidate of (actor's edges to `n`) × (candidate's edges to `n`) |
| LinkPredictor.CountCollaborators | src/linkpredictor.cpp:45-52 | keys are exactly the ends of the actor's edges; each value is how many edges lead there |
| LinkPredictor.CountNeighbors | src/linkpredictor.cpp:62-79 | keys are the candidate's ends that are collaborators (minus the excluded node); values count edges |
| LinkPredictor.Priority | src/linkpredictor.cpp:80-86 | priority is Σ over the keys of (actor's edges to n) × (candidate's edges to n), in any order |
| LinkPredictor.ScoreOf | src/linkpredictor.cpp:58-86 | a candidate's priority equals `Score`: Σ over collaborators n other than it of the two counts' product |
| LinkPredictor.ScoreCollaborators | src/linkpredictor.cpp:56-91 | one pair (name, score) per node scored, no duplicates |
| LinkPredictor.PredictCollaborate | src/linkpredictor.cpp:40-102 | the top ranking of all collaborators by score; every name returned is a co-star |
| LinkPredictor.SelfCollaboratorReturned | src/linkpredictor.cpp:45-67 | as written, an actor whose only edges lead to itself gets back exactly its own name |
| LinkPredictor.RepeatedRecordLinksActorToItself | src/ActorGraph/ActorGraph.cpp:105-115 | the same record twice gives the actor two edges to itself |
| LinkPredictor.PredictCollaborateExcludingSelf | src/linkpredictor.cpp:40-102 | corrected: the top ranking of the collaborators other than the actor; never the actor, always a co-star |
| LinkPredictor.ReachAdd | src/linkpredictor.cpp:138-155 | the candidates of one more collaborator are the new ends of its edges |
| LinkPredictor.AddNoncollabs | src/linkpredictor.cpp:142-154 | adds, at 0, each end that is neither collaborator nor the actor; existing entries kept |
| LinkPredictor.FindNoncollabs | src/linkpredictor.cpp:138-155 | keys are exactly the actors a collaborator's edge leads to, neither collaborator nor the actor |
| LinkPredictor.ScoreNoncollabs | src/linkpredictor.cpp:158-186 | same keys, each candidate's value its `Score` |
| LinkPredictor.ListScores | src/linkpredictor.cpp:188-194 | the list holds each entry's (name, value) once |
| LinkPredictor.ScoreNewCandidates | src/linkpredictor.cpp:125-194 | one (name, score) pair per new candidate, no duplicates |
| LinkPredictor.PredictNewFor | src/linkpredictor.cpp:122-206 | the top ranking of the new candidates; no name is the actor's or a collaborator's |
| LinkPredictor.PredictNew | src/linkpredictor.cpp:120-206 | the top ranking of the new candidates by score; never the actor, never a co-star |
| LinkPredictor.NewCandidateNamesFresh | src/linkpredictor.cpp:143-145 | a new candidate's name is neither the actor's nor a collaborator's |
| LinkPredictor.ParseFile | src/linkpredictor.cpp:214-234 | every line but the first, in order; nothing for an empty file |

## Left out

- File and stream handling is outside the model: opening files, `eof`, stream failure (which makes `loadFromFile` return false) and writing results. Files are given as sequences of lines.
- The `main` functions and argument handling of `src/pathfinder.cpp` and `src/linkpredictor.cpp` are not part of this model (command-line glue).
- `src/movietraveler.cpp` is not part of this model: its `main` only returns, and no spanning-tree or union-find code exists. `sentinel`/`base` are modelled only as their setters and getters.
- No weighted shortest-path search exists in the code. Its building blocks (`setPrev(e, w)`, `setStart`, `NodePairComp`) are modelled.
- `src/ActorGraph/pathfinder.cpp` is not part of this model: it is a superseded copy that relies on methods never implemented.
- GraphSpec.AddLine: the year is read only from digit-only fields; `stoi`'s leniency (leading blanks, signs, trailing text) and its exceptions are not modelled.
- `use_weighted_edges` is never read by the loader, and it has no counterpart here.
- Integers are unbounded. The 32-bit overflow of weights (old years, `setPrev(e, w)` near `MAX_WEIGHT`) and of priorities is not modelled.
- Memory management (`new`/`delete`, `~Node`, `graph.clear()`) is not modelled.
- PathFinder.FindUnweightedPath: the search never marks nodes visited, and either of its two loops can run for ever. The queue loop (src/pathfinder.cpp:56-92) never stops when the second actor is unknown or unreachable and the first has a neighbour; it does stop once a reachable end is popped. The back-pointer walk (src/pathfinder.cpp:66-70) can cycle even when the end was reached, because expanding a node again overwrites its neighbours' back-pointers (Findings, last row). The model bounds each loop with `fuel` and answers `OutOfFuel` (clearing the checked edges) instead of diverging. So termination is not claimed, and a correct answer is promised only when the search stops.
- PathFinder.Reconstruct: says nothing about an `OutOfFuel` answer. The walk it models can cycle for ever with the end reached (SearchFindings.BackPointerWalkCycles), so no fuel is guaranteed to suffice; a returned path is a walk from start to end.
- PathFinder.FindUnweightedPath: shortest length is not claimed. Later back-pointer writes can replace earlier ones, so the reconstructed walk need not be shortest.
- PathFinder.FindUnweightedPath: a known second actor with an unknown first one is excluded by a precondition. The source reads a null node's edges there; with both actors unknown it returns `[]`.
- ActorGraphs.ActorGraph.LoadFromFile: the contract does not state that the new edges are fresh and unchecked. Each pair is, by ActorGraphs.ActorGraph.LinkPair, but this is not carried up to the whole load.
- The order of `unordered_map` iteration is chosen by `:|`, so every proof covers every order. No particular hash order is modelled.
- LinkPredictor.PredictCollaborate and LinkPredictor.PredictNew require a known actor: the source dereferences the null node of an unknown one.
- `getMovieCast` is modelled taking a `Movie`, the key type the header and the test use, rather than the bare title of the implementation.

## Findings

| source | as written | input that shows it | evidently intended | confidence | as-written member | corrected member |
|---|---|---|---|---|---|---|
| src/ActorGraph/ActorGraph.cpp:94-116 | the cast of a known movie is copied into a local vector, and the actor is appended to the copy only | data rows `A M 2019`, `B M 2019`, `C M 2019` | the stored cast grows to `[A, B, C]` and B, C are linked (comment at lines 105-106, test/testActorGraph.cpp:29-43) | high, not executed | LoadFindings.CopiedCastDropsCoStars | LoadFindings.GrowingCastLinksCoStars |
| src/ActorGraph/ActorGraph.cpp:79-112 | the text of the .cpp file looks up movies and labels edges by bare title (read as text: against the `Movie`-keyed map of ActorGraph.hpp:31 it does not compile, since `Movie` has no conversion from a string) | data rows `A M 2000`, `B M 2010` | keyed by title and year (ActorGraph.hpp:31, test/testActorGraph.cpp:28-29), giving two casts and no edge | high, not executed | LoadFindings.TitleKeyMergesFilms | LoadFindings.MovieKeySeparatesFilms |
| src/linkpredictor.cpp:56-91 | the actor itself is scored when it is its own collaborator (an edge to itself); `predictNew` excludes it at line 145, `predictCollaborate` does not | data rows `A M 2000` twice, then `predictCollaborate("A")` returns `["A"]` | the queried actor is never recommended to itself | medium, not executed | LinkPredictor.SelfCollaboratorReturned | LinkPredictor.PredictCollaborateExcludingSelf |
| src/pathfinder.cpp:66-70 | the back-pointer walk follows `prev` pointers that every later expansion of a neighbour overwrites (lines 89-90), with no visited mark | data rows `A M1 2001`, `B M1 2001`, `B M2 2002`, `C M2 2002`, `C M3 2003`, `D M3 2003`, query A to D: D is popped 7th with `prev` of D, C, B being C->D, B->C, C->B, and the walk goes D, C, B, C, B, ... for ever | a node is queued and pointed back only when first discovered, so the walk returns a path from A to D | high, not executed | SearchFindings.BackPointerWalkCycles | SearchFindings.MarkedSearchReturnsWalk |
