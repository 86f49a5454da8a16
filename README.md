# Reverse causal reasoning over a KAM network, in Dafny

This project models the reverse-causal-reasoning (RCR) core of neuroMMSig.

1. A pathway is assembled from pathway rows (source, target) and a mapping file of known interactions (source, target, relation). This is `DataReader.get_pathway`.
2. The genes of a GEO experiment are split into up- and down-regulated lists by a p-value and a log-fold-change threshold. This is `PreProcessing.__ext_regu_genes`.
3. The class `RCR` turns the pathway into a knowledge-assembly model (KAM) network:
   - an edge whose (source, target) pair is repeated becomes "ambiguous";
   - every node and its neighbours form a hypothesis (HYP) network;
   - every neighbour gets a state change, a causal weight and a type (correct, contrast or ambiguous) against the total weight of the upstream node.
4. Its subclass `RCRstat` computes, for each upstream node:
   - a concordance (a binomial tail with p = 1/2);
   - a richness, a factorial expression meant to be the hypergeometric tail (see "## Findings": as written it is not).
5. `Graph.__check_output` checks the file extension of an image path before a plot is written to it.

Modules, one per concern:

- `Genes`: gene symbols, states, relations and their constants, the `Distinct` predicate on sequences and a prefix lemma for it.
- `Wrappers`: `Option`.
- `PreProcessing`: the regulated-gene filter.
- `Reader`: the left join and `drop_duplicates` that assemble a pathway.
- `Kam`: the networkx graph built from an edge list, and the ambiguity marking.
- `Inference`:
  - the sign table of `__causal_inference`;
  - `__which_state_change`;
  - the classification;
  - the weight and inference tables as functions of the network.
- `Combinatorics`: factorials, binomials, powers of two, Pascal's rule, the row sum and Vandermonde's identity, in natural numbers.
- `Scores`: the concordance and richness formulas.
- `Enrichment`: the per-node counts and the concordance and richness dictionaries as functions of the inference table.
- `Mechanrich`: the class `Rcr` (both `RCR` and `RCRstat`) and the loops of their methods as methods proved against those functions.
- `OutputPath`: `__check_output` with POSIX `basename` and `splitext`.

Facts about the code this model relies on:

- The network is undirected. `nx.from_pandas_edgelist` is called without a directed graph type, so `_G[a]` lists neighbours in both directions. An edge's relation is keyed by the unordered pair, and the last row for a pair sets it.
- An edge is ambiguous when its (source, target) pair is repeated in the pathway as assembled. The marking loop visits both directions of every edge, so an edge {a, b} is marked when (a, b) or (b, a) is repeated. After `drop_duplicates`, such repeated rows always carry different relations (`Reader.RepeatedKeyConflicts`).
- An edge whose pair has no mapping row keeps a missing relation (NaN, here `None`). It weighs 0 like any relation other than activation and inhibition; no error is raised for it.
- `get_relation` on a pair that is not an edge raises `KeyError`. Here it returns `None`.
- Every node has at least one neighbour and a richness. The guard `n >= k and m >= k` of `_cal_richness` always holds on the tables the class builds (`Enrichment.RichnessAlwaysPresent`). The guard `n - l >= k` of `_cal_concordance` also always holds, so a concordance exists exactly when some neighbour is "correct".
- Real numbers are exact. The concordance term `factorial(n-l) / (factorial(j) * factorial(n-l-j)) * p**j * (1-p)**(n-l-j)` is the same number as `Binom(n-l, j) / 2^(n-l)` (`Scores.ConcordanceTermBinomial`, from `Combinatorics.BinomFact` and `Combinatorics.Pow2Split`). The whole sum as written equals the binomial form (`Scores.ConcordanceAsWrittenAgrees`), and the rest of the model uses the binomial form.

## Model

| member | source | states |
|---|---|---|
| PreProcessing.Regulated | src/neurommsig/preprocessing.py:21-28 | a symbol is listed exactly when some record with that symbol has p-value below the threshold and fold change above it (up) or below its negation (down); no more symbols than records |
| PreProcessing.RegulatedAppend | src/neurommsig/preprocessing.py:23-28 | the boolean-mask filter keeps input order: filtering a concatenation is concatenating the filtered parts |
| PreProcessing.RegulatedSingle | src/neurommsig/preprocessing.py:23-28 | a single record is kept exactly when it passes the mask |
| PreProcessing.PassesExclusive | src/neurommsig/preprocessing.py:23-28 | with a non-negative fold-change threshold no record is both up and down; a non-significant record or one within the threshold is neither |
| PreProcessing.UpDownDisjoint | src/neurommsig/preprocessing.py:21-28 | with unique symbols no gene is in both lists |
| PreProcessing.ConfiguredListsDisjoint | src/mechanrich/constants.py:7-8 | with the configured thresholds 0.01 and 0.5 and unique symbols, no gene is in both lists |
| Reader.Matches | src/neurommsig/reader.py:58 | the mapping rows on the same (source, target) key, and only those |
| Reader.JoinRow | src/neurommsig/reader.py:58 | a left join of one pathway row: one row per matching mapping row with its relation, or a single row with a missing relation exactly when nothing matches |
| Reader.LeftJoin | src/neurommsig/reader.py:58-60 | a left join keeps at least one row per pathway row: at least as many rows, and a row with each pathway row's key |
| Reader.LeftJoinRows | src/neurommsig/reader.py:58-60 | every joined row comes from a pathway row; a present relation comes from a matching mapping row; a missing one means no mapping row matches |
| Reader.LeftJoinCovers | src/neurommsig/reader.py:58-60 | every row joined for a pathway row is in the result |
| Reader.DropDuplicates | src/neurommsig/reader.py:61 | no row twice, and exactly the rows of the input |
| Reader.DropDuplicatesOrder | src/neurommsig/reader.py:61-62 | the rows kept are in the order of their first occurrence |
| Reader.GetPathway | src/neurommsig/reader.py:55-63 | the assembled pathway has no repeated row |
| Reader.GetPathwayProvenance | src/neurommsig/reader.py:55-63 | each row has a pathway row's key; its relation is a mapping row's for that key, and it is missing if and only if no mapping row has the key |
| Reader.GetPathwayCovers | src/neurommsig/reader.py:55-63 | every pathway row appears, once for each relation the mapping gives its key |
| Reader.RepeatedKeyConflicts | src/neurommsig/reader.py:55-63 | two assembled rows with the same (source, target) differ in relation |
| Kam.AddEdgeFacts | src/mechanrich/mechanrich.py:36 | adding one edge keeps the graph well formed, adds both endpoints, makes them adjacent both ways and sets the relation of the unordered pair |
| Kam.FromEdgeList | src/mechanrich/mechanrich.py:36 | the graph built from an edge list is well formed: distinct nodes and neighbour lists, symmetric adjacency, a relation on every edge |
| Kam.FromEdgeListNodes | src/mechanrich/mechanrich.py:36 | the nodes are exactly the endpoints of the rows |
| Kam.FromEdgeListAdjacency | src/mechanrich/mechanrich.py:36 | two genes are adjacent exactly when some row joins them, in either direction |
| Kam.FromEdgeListLastWins | src/mechanrich/mechanrich.py:36 | an edge carries the relation of the last row for its unordered pair |
| Kam.AmbiguousEdgesRepeated | src/mechanrich/mechanrich.py:38-44 | a directed pair is in the ambiguous list exactly when it occurs at least twice among the rows |
| Kam.AmbiguousEdgesAreEdges | src/mechanrich/mechanrich.py:38-49 | every pair in the ambiguous list is an edge of the network |
| Kam.MarkStep | src/mechanrich/mechanrich.py:48-49 | marking one more pair overwrites the relation of that edge only |
| Kam.MarkComplete | src/mechanrich/mechanrich.py:45-49 | flagging every listed pair met from some node, and nothing else, gives the KAM network |
| Kam.KamRelation | src/mechanrich/mechanrich.py:33-49 | an edge {a, b} of the KAM network is "ambiguous" exactly when (a, b) or (b, a) is repeated, and otherwise keeps the edge-list relation |
| Kam.KamRepeatedPair | src/mechanrich/mechanrich.py:33-49 | the edge of a repeated row is ambiguous |
| Kam.KamSinglePair | src/mechanrich/mechanrich.py:33-49 | a row whose pair occurs once and never reversed keeps its own relation |
| Kam.KamWellFormed | src/mechanrich/mechanrich.py:33-49 | the KAM network is well formed, with the nodes, adjacency and edges of the edge-list graph |
| Inference.WhichStateChange | src/mechanrich/mechanrich.py:71-77 | "increase" exactly for up-regulated genes, "decrease" for down-regulated genes not in the up list, none otherwise |
| Inference.StateOfRecord | src/mechanrich/mechanrich.py:71-77 | a gene's state change is "increase" or "decrease" exactly when its record passes that threshold test |
| Inference.CausalInference | src/mechanrich/mechanrich.py:55-69 | no weight without a state change; +1 when the state change agrees with the relation's sign, -1 when it opposes it, 0 for any other relation |
| Inference.CausalInferenceFlips | src/mechanrich/mechanrich.py:55-69 | flipping the state change flips the weight |
| Inference.Classify | src/mechanrich/mechanrich.py:103-115 | no type without a state change; "correct" when it has the sign of the total weight, "contrast" when it has the opposite sign, "ambiguous" when the total is 0 |
| Inference.ClassifyBySign | src/mechanrich/mechanrich.py:103-115 | the type is decided by the sign of direction times total weight |
| Inference.TotalWeightBound | src/mechanrich/mechanrich.py:86-99 | the total weight is bounded in magnitude by the number of regulated neighbours |
| Inference.HypTable | src/mechanrich/mechanrich.py:84-97 | one entry per neighbour, in neighbour order, with the edge's relation |
| Inference.WeightTable | src/mechanrich/mechanrich.py:83-101 | a weight for every node |
| Inference.InferTable | src/mechanrich/mechanrich.py:82-85 | a table for every node |
| Inference.WeightTableConsistent | src/mechanrich/mechanrich.py:86-101 | a node's weight is the sum of the weights of its neighbours that have a state change, within plus or minus their number |
| Inference.HypTableClassification | src/mechanrich/mechanrich.py:79-116 | each entry's state change, weight and type are those of the neighbour and of the node's total weight |
| Combinatorics.BinomFact | src/mechanrich/mechanrich.py:168-169 | C(n, k) k! (n-k)! = n!, the factorial quotient of the concordance term |
| Combinatorics.Pow2Split | src/mechanrich/mechanrich.py:170-171 | 2^j 2^(a-j) = 2^a, so p^j (1-p)^(a-j) = 1/2^a at p = 1/2 |
| Combinatorics.RowSum | src/mechanrich/mechanrich.py:166-174 | a full row of binomials sums to 2^n, so a binomial tail is at most 1 |
| Combinatorics.Vandermonde | src/mechanrich/mechanrich.py:198-205 | sum of C(a, j) C(b, n-j) over j is C(a+b, n), so a hypergeometric tail is at most 1 |
| Scores.Concordance | src/mechanrich/mechanrich.py:165-175 | a concordance exists exactly when n - l >= k and k > 0 |
| Scores.ConcordanceBounds | src/mechanrich/mechanrich.py:165-175 | a concordance is a probability |
| Scores.ConcordanceBinomialTail | src/mechanrich/mechanrich.py:165-175 | with no more stated neighbours than regulated genes, the concordance is the probability of at least k successes in n - l fair trials |
| Scores.ConcordanceTail | src/mechanrich/mechanrich.py:165-175 | the same, and in [0, 1], whenever it exists |
| Scores.ConcordanceTermBinomial | src/mechanrich/mechanrich.py:168-171 | the code's term a!/(j!(a-j)!) p^j (1-p)^(a-j) at p = 1/2 is C(a, j)/2^a |
| Scores.ConcordanceAsWritten | src/mechanrich/mechanrich.py:165-175 | the code's concordance with its own term exists exactly when n - l >= k and k > 0 |
| Scores.ConcordanceAsWrittenAgrees | src/mechanrich/mechanrich.py:165-175 | the code's concordance as written equals the binomial form the model uses |
| Scores.ConcordanceExample | src/mechanrich/mechanrich.py:165-175 | two unambiguous stated neighbours, one correct: 3/4 |
| Scores.Richness | src/mechanrich/mechanrich.py:197-206 | a richness exists exactly when n >= k and m >= k |
| Scores.RichnessBounds | src/mechanrich/mechanrich.py:197-206 | a richness is a probability |
| Scores.RichnessExample | src/mechanrich/mechanrich.py:197-206 | N = 3, m = 2, n = 2, k = 2 gives 1/3 |
| Scores.RichnessAsWritten | src/mechanrich/mechanrich.py:197-206 | the term as the code writes it is defined exactly when n >= k and m >= k |
| Scores.RichnessAsWrittenExceedsOne | src/mechanrich/mechanrich.py:200-202 | the term as written gives 3 where the hypergeometric tail is 1/3 |
| Enrichment.CountKindPositive | src/mechanrich/mechanrich.py:160-161 | a count of a type is positive exactly when some entry has that type |
| Enrichment.KindsWithinStated | src/mechanrich/mechanrich.py:154-163 | k + l <= n: correct and ambiguous entries all have a state change |
| Enrichment.HypTableClassified | src/mechanrich/mechanrich.py:103-105 | an entry has a type exactly when it has a state change |
| Enrichment.StatedNeighbours | src/mechanrich/mechanrich.py:193-195 | the number of entries with a state change is the number of regulated neighbours |
| Enrichment.NeighbourCounts | src/mechanrich/mechanrich.py:182-195 | n <= N, k <= m and n - k <= N - m, so every factorial argument of the richness is non-negative |
| Enrichment.TableConcordanceValue | src/mechanrich/mechanrich.py:150-175 | the guard n - l >= k always holds, so a table has a concordance exactly when some entry is correct, and it is a binomial tail in [0, 1] |
| Enrichment.HypTableCounts | src/mechanrich/mechanrich.py:146-159 | a node has no more stated neighbours than there are regulated nodes |
| Enrichment.InferTableShape | src/mechanrich/mechanrich.py:182 | one table per node, each the node's hypothesis table, so N is the number of nodes |
| Enrichment.ConcordanceExistsIffCorrect | src/mechanrich/mechanrich.py:164-175 | a node has a concordance exactly when one of its neighbours is "correct" |
| Enrichment.ConcordanceOfValue | src/mechanrich/mechanrich.py:164-175 | a node's concordance is the binomial tail over its unambiguous stated neighbours, in [0, 1] |
| Enrichment.RichnessAlwaysPresent | src/mechanrich/mechanrich.py:196-206 | every node has a richness, and it is in [0, 1] |
| Enrichment.RichnessAsWrittenDefined | src/mechanrich/mechanrich.py:196-206 | on the tables the class builds, the term as written has non-negative factorial arguments and is always defined |
| Mechanrich.RegulatedCount | src/mechanrich/mechanrich.py:146-149 | the loop counts the genes that are in the up or the down list |
| Mechanrich.KamNetwork | src/mechanrich/mechanrich.py:33-49 | building the graph and running the marking loop yields the KAM network, well formed |
| Mechanrich.MarkAmbiguous | src/mechanrich/mechanrich.py:45-49 | the marking loops mark exactly the edges of the listed pairs (a, b) met from a node a to its neighbour b |
| Mechanrich.MarkNeighbours | src/mechanrich/mechanrich.py:47-49 | the inner loop adds to the marks of earlier nodes those of the listed pairs from one node to its neighbours |
| Mechanrich.RecordNeighbours | src/mechanrich/mechanrich.py:87-99 | one unclassified entry per neighbour, and the total weight of the stated ones |
| Mechanrich.ClassifyEntries | src/mechanrich/mechanrich.py:103-115 | each entry gets the type of its state change against the total weight |
| Mechanrich.InferUpstream | src/mechanrich/mechanrich.py:84-115 | one pass over a node gives its weight and its table |
| Mechanrich.ConcordanceCounters | src/mechanrich/mechanrich.py:153-163 | n, l and k count stated, ambiguous and correct entries |
| Mechanrich.StatedCounter | src/mechanrich/mechanrich.py:191-195 | k counts stated entries |
| Mechanrich.Rcr.constructor | src/mechanrich/mechanrich.py:135-139 | the object holds the KAM network of its pathway, the inference tables of that network and the statistics of those tables |
| Mechanrich.Rcr.DeriveKam | src/mechanrich/mechanrich.py:33-49 | the network field becomes the KAM network of the pathway |
| Mechanrich.Rcr.GenerateHypNetworks | src/mechanrich/mechanrich.py:51-53 | one neighbour list per node; b is listed under a exactly when some pathway row joins them |
| Mechanrich.Rcr.GetCausalInference | src/mechanrich/mechanrich.py:79-116 | the weight and inference tables of the network |
| Mechanrich.Rcr.CalConcordance | src/mechanrich/mechanrich.py:141-176 | the concordance of every node that has one |
| Mechanrich.Rcr.CalRichness | src/mechanrich/mechanrich.py:178-207 | the richness of every node that has one, under the code's guard, with the corrected (hypergeometric) term |
| Mechanrich.Rcr.GetGeneConc | src/mechanrich/mechanrich.py:209-215 | for a node, its concordance, present exactly when a neighbour is "correct"; a probability; none for an unknown gene |
| Mechanrich.Rcr.GetGeneRich | src/mechanrich/mechanrich.py:217-223 | for a node, its richness, always present and a probability; none for an unknown gene |
| Mechanrich.Rcr.GetAllGenes | src/mechanrich/mechanrich.py:118-120 | each gene that is an endpoint of a pathway row, once |
| Mechanrich.Rcr.GetRelation | src/mechanrich/mechanrich.py:122-129 | a relation exactly for adjacent genes: the KAM relation, "ambiguous" when the pair is repeated |
| OutputPath.Basename | src/mechanrich/mechanrich.py:337 | the part of the path after its last '/', without any '/' |
| OutputPath.SplitExt | src/mechanrich/mechanrich.py:337 | the root and extension rebuild the name; the extension is a '.' and what follows it in the last component, and is empty for a name with only dots before its last '.' |
| OutputPath.CheckOutput | src/mechanrich/mechanrich.py:334-341 | a refused path raises ValueError with the message naming the four formats |
| OutputPath.NamePasses | src/mechanrich/mechanrich.py:336-338 | a file name passes exactly when it ends in ".pdf", ".svg", ".png" or ".jpg" and has a character other than '.' before it |
| OutputPath.CheckOutputPasses | src/mechanrich/mechanrich.py:334-341 | a path passes exactly when its file name does |
| OutputPath.CheckOutputPdf | tests/test_mechanrich.py:15-16 | "test_data/fake_network.pdf" passes |
| OutputPath.CheckOutputExt | tests/test_mechanrich.py:21-23 | "test_data/fake_network.ext" raises ValueError |
| OutputPath.CheckOutputDotName | src/mechanrich/mechanrich.py:337-338 | a file named ".pdf" has no extension and is refused |
| OutputPath.CheckOutputUpperCase | src/mechanrich/mechanrich.py:336-338 | ".PDF" is refused: the comparison is case sensitive |
| OutputPath.CheckOutputDirectoryExtension | src/mechanrich/mechanrich.py:337-338 | an extension on a directory does not count |

## Left out

- Reading the TSV files (`DataReader`, `get_gene_set`), the threshold constants' module, logging and fake-pathway generation are I/O. The pathway rows, the mapping rows and the gene records are parameters. The thresholds are parameters too, with the configured values 0.01 and 0.5 as constants.
- `RCR.__preprocessing` reads through `PreProcessing` and `DataReader`. The constructor takes the pathway and the two regulated lists it would return.
- The `Graph` class draws with matplotlib and networkx layouts (`plot_hyp`, `plot_ori_network`, `plot_full_network`). Drawing and saving are not modelled; only `__check_output` is. The tests call a `get_stat` that `src/mechanrich/mechanrich.py` does not define; it is not modelled.
- `src/mechanrich/preprocessing.py`, `src/mechanrich/data_reader.py` and the `utils` modules are not part of this model.
- Floating point: concordance and richness are exact reals, so rounding in `factorial` quotients and `0.5 ** j` is not modelled. The gene records' p-value and log fold change are exact reals too, so a NaN record (which pandas drops from both masks) cannot be represented.
- Mechanrich.Rcr.CalRichness, Mechanrich.Rcr.GetGeneRich: the class holds the hypergeometric tail (`Scores.Richness`), the term the code evidently intends. The code's own term is `Scores.RichnessAsWritten`, which can exceed 1 (see "## Findings").
- Dictionary order: the inference tables are keyed maps. Their iteration order is the node order of the network, kept in `Graph.nodes`.
- `_G[source][target]` raising `KeyError`: `Mechanrich.Rcr.GetRelation` returns `None` instead.
- Mechanrich.Rcr.constructor, Mechanrich.Rcr.DeriveKam: their contracts state the new state of the object, not a result.

## Findings

| source | as written | input that shows it | evidently intended | confidence | as-written member | corrected member |
|---|---|---|---|---|---|---|
| src/mechanrich/mechanrich.py:200-202 | each term is j!/(m!(m-j)!) * (n-j)!/((N-m)!(N-m-n+j)!) / (n!/(N!(N-n)!)), which inverts the binomials and uses j! and (n-j)! as numerators | N = 3 nodes, m = 2 regulated, n = 2 neighbours, k = 2 regulated neighbours: the sum is 3, more than 1 | the hypergeometric tail, the sum over j of C(m, j) C(N-m, n-j) / C(N, n), here 1/3 | not executed | Scores.RichnessAsWrittenExceedsOne | Scores.RichnessBounds |
