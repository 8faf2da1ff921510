# ReconSage models and proofs

A Dafny model of five parts of ReconSage, with proofs about them. `dafny verify dfyconfig.toml`
checks everything.

1. **Isolation forest** (`IsolationTree`, `LeafCounts`, `Training`, `ForestFile`, `Predict`). Training grows
   random-cut trees into a flat vector of nodes linked by integer indices. An inductive tree is the
   specification: the recursive builder appends exactly the layout of a tree that some choice of
   cuts could grow, and the index walk of prediction refines the descent of that tree. The cut is
   any value in [min, max), the shuffle any permutation. A node stores its cut in an `int` field
   while the bucket was partitioned with the `double`; both are kept. Training and prediction agree
   for a value exactly when it lies between no cut of its path and that cut's integer part, and the
   leaf sizes count what prediction routes to them exactly when that holds of the whole bucket. The
   text file between the two is modelled character by character.
2. **DNS** (`DnsName`, `DnsMessage`, `DnsResolver`, `DnsTruncation`). Name encoding and skipping,
   the offset-driven walk over answers, and the length-prefixed TCP framing, against structured
   messages after sections 3.1, 4.1.1 to 4.1.4 and 4.2.2 of RFC 1035, whole or cut at any octet.
3. **Streams and handles** (`TextSearch`, `Network`, `Receiving`, `BodyCapture`, `HeaderSanitiser`,
   `StatusLine`, `RequestText`, `Handles`, `TorScan`). Receive loops over a stream that arrives in pieces of any
   size, with TLS reads that may ask to be repeated and a cancel flag that may rise at any poll.
   The results are functions of the stream alone, except where the first piece of a response decides
   whether its status is defined at all. The Tor scan extends a trace of opened, used and
   released handles; the trace keeps its discipline on every run.
4. **Record file** (`Lines`, `RecordFile`, `RecordReading`, `RecordMisreading`, `RecordPieces`,
   `RecordRoundTrip`). A C# printer and a C++ parser, and
   exactly which records survive the trip.
5. **Statistics** (`RealFacts`, `Statistics`, `LatencySpikes`, `TokenColumns`). Means, deviations,
   z-scores, thresholds and latency spikes over the reals, with Chebyshev and Cantelli bounds on how
   many values the rules flag.

Beside the general results small examples fix the meaning in plain values: the characters of a file,
the octets of a query, the status of a response.

`Wrappers`, `Sequences` and `Decimal` hold what the parts share.

Classes and methods stand where the program updates state: the node vector, the predictor's
forest, receive buffers, the line reader, the ledger of handles. Each such method is proved against
a function or predicate over values, and the lemmas are about those.

## Choices

- `double` is `real`. `sqrt` is any function that meets its defining equation, `pow(2, x)` and the
  leaf correction `calculate_c` are arbitrary functions given to the predictor.
- `recv`, `connect`, the handshake, the proxy's replies and the cancel flag are arbitrary results.
  `SSL_read` may ask to be repeated any finite number of times.
- The walk over a forest file whose links go in a circle never returns in the program. The model
  gives the walk as many steps as the vector has nodes and answers `None` beyond; trained trees
  never need more.
- Where the program's behaviour is undefined the model says so: `Undefined` for a text without
  "HTTP/" in `extract_status_from_buffer`, `OutsideBuffer` for reads behind a DNS buffer. The body
  capture and the Tor scan call the former, so they have an outcome of their own for it.
- After a failed second tunnel the scan still calls `interface_scan`; the write on the null handle
  or negative descriptor is modelled as a failed write.
- An integer cut is the `double` cut with its fraction dropped. Cuts outside the range of `int`
  have no defined conversion; `SamplesFit` excludes them where the file format needs it.

## Model

| member | source | states |
|---|---|---|
| LeafCounts.TrainingAndPredictionAgree | Native_CPP_build/Reco_GAN/Reco_GAN_Adv_Trees/Training.cpp:42-106 | for every bucket, every choice of cuts in [min, max) and every depth limit: the number of bucket samples that the index walk ends at each node with is the size stored there, if and only if no bucket sample lies between a cut and its stored integer on its training path |
| LeafCounts.EqualCountsAreClear | Native_CPP_build/Reco_GAN/Reco_GAN_Adv_Trees/Training.cpp:74-106 | stored cuts that lead as many samples to every leaf as training did leave no sample of the bucket in a gap of its path |
| LeafCounts.EqualCountsEqualHalves | Native_CPP_build/Reco_GAN/Reco_GAN_Adv_Trees/Training.cpp:75-94 | equal counts at the leaves force the stored cut and the cut itself to split the bucket alike |
| IsolationTree.ReachesTrainingLeafIffClear | Native_CPP_build/Reco_GAN/Reco_GAN_Adv_Trees/Predict.cpp:50-53 | a value reaches the leaf that training put it in if and only if no node of its training path has it between the cut and the stored cut; size and edges then agree too |
| IsolationTree.GapIsDivergence | Native_CPP_build/Reco_GAN/Reco_GAN_Adv_Trees/Training.cpp:74-76 | the partition test and the stored-cut test differ at a node exactly for floor(cut) <= x < cut (mirrored for negative cuts) |
| IsolationTree.PredictionMatchesTraining | Native_CPP_build/Reco_GAN/Reco_GAN_Adv_Trees/Predict.cpp:40-54 | the flat walk always ends at a leaf, and at the training leaf if and only if the path is clear |
| IsolationTree.ExactCutsAreClear | Native_CPP_build/Reco_GAN/Reco_GAN_Adv_Trees/Reco_GAN_Struct.cpp:35 | cuts that are whole numbers never misroute any value |
| IsolationTree.TruncatedCutMisroutes | Native_CPP_build/Reco_GAN/Reco_GAN_Adv_Trees/Training.cpp:75-76 | a concrete bucket, 1.0 and 2.0 with cut 1.5, of which both samples are walked to a leaf of stored size 1 |
| IsolationTree.WalkRefinesTree | Native_CPP_build/Reco_GAN/Reco_GAN_Adv_Trees/Predict.cpp:40-54 | wherever a tree stands in a vector, the walk by indices ends where descending the tree by stored cuts ends, after as many edges |
| IsolationTree.EdgesSumToInternalBuckets | Native_CPP_build/Reco_GAN/Reco_GAN_Adv_Trees/Predict.cpp:40-54 | on clear paths the edge depths summed over the training samples equal the bucket sizes summed over the internal nodes |
| IsolationTree.MisroutedSumsAgree | Native_CPP_build/Reco_GAN/Reco_GAN_Adv_Trees/Predict.cpp:40-54 | the sum can agree although a sample is misplaced: in the example both samples take one edge, so the sum does not characterise clear paths |
| IsolationTree.TotalPathOfTrainingBucket | Native_CPP_build/Reco_GAN/Reco_GAN_Adv_Trees/Predict.cpp:40-54 | with the leaf correction, the summed path lengths of the training bucket are leaf size times (depth + correction), summed over the leaves |
| IsolationTree.PathLengthOfWalk | Native_CPP_build/Reco_GAN/Reco_GAN_Adv_Trees/Predict.cpp:42-53 | the recursion with its running depth computes the edges of the walk plus the correction of the leaf reached |
| IsolationTree.FlatShape | Native_CPP_build/Reco_GAN/Reco_GAN_Adv_Trees/Training.cpp:97-105 | preorder layout of the whole vector: node i links to i + 1 and to i + 1 + the size of its left subtree, all inside the vector, and each index but 0 has exactly one parent |
| IsolationTree.SegmentLinks | Native_CPP_build/Reco_GAN/Reco_GAN_Adv_Trees/Training.cpp:44-57 | the links of a subtree stay inside its own segment of the vector |
| IsolationTree.SubtreeIsPlaced | Native_CPP_build/Reco_GAN/Reco_GAN_Adv_Trees/Training.cpp:97-105 | the subtree below each index stands in the vector from that index on |
| IsolationTree.ParentIsUnique | Native_CPP_build/Reco_GAN/Reco_GAN_Adv_Trees/Training.cpp:101-102 | inside a segment exactly one node links to each index but the first, none to the first, none out of it |
| IsolationTree.ForwardWalkEnds | Native_CPP_build/Reco_GAN/Reco_GAN_Adv_Trees/Predict.cpp:42-43 | forward links suffice for every walk to end at a leaf without reaching the range guard, the remaining indices being the measure |
| IsolationTree.PartitionConserves | Native_CPP_build/Reco_GAN/Reco_GAN_Adv_Trees/Training.cpp:84-94 | the two child buckets together are the parent bucket as a multiset |
| IsolationTree.GrownWeight | Native_CPP_build/Reco_GAN/Reco_GAN_Adv_Trees/Training.cpp:51-57 | the leaf sizes of a grown tree sum to the size of its bucket |
| IsolationTree.GrownHeight | Native_CPP_build/Reco_GAN/Reco_GAN_Adv_Trees/Training.cpp:51 | no leaf lies deeper than the depth limit |
| IsolationTree.CountByLeaves | Native_CPP_build/Reco_GAN/Reco_GAN_Adv_Trees/Training.cpp:42-106 | a tree with k leaves has 2k - 1 nodes, and k is at most 2 to the height |
| LeafCounts.SizesCountSamples | Native_CPP_build/Reco_GAN/Reco_GAN_Adv_Trees/Training.cpp:53-54 | the size of each leaf is the number of samples that the partitions send to it |
| LeafCounts.LayoutStoresSizes | Native_CPP_build/Reco_GAN/Reco_GAN_Adv_Trees/Training.cpp:53-54 | the vector stores at each leaf index the size of that leaf, and 0 at internal nodes |
| IsolationTree.LeavesSeparate | Native_CPP_build/Reco_GAN/Reco_GAN_Adv_Trees/Training.cpp:51-71 | two different samples of a bucket share a leaf only when that leaf lies at the depth limit: training never stops early |
| IsolationTree.TwoSamplesSplit | Native_CPP_build/Reco_GAN/Reco_GAN_Adv_Trees/Training.cpp:51 | two different samples under a limit of one level always give three nodes |
| IsolationTree.SampleWalk | Native_CPP_build/Reco_GAN/Reco_GAN_Adv_Trees/Predict.cpp:40-54 | on a concrete vector of three nodes a value below the stored cut takes the left link, one equal to it the right link; an index outside the vector ends the path |
| IsolationTree.TruncateDropsFraction | Native_CPP_build/Reco_GAN/Reco_GAN_Adv_Trees/Reco_GAN_Struct.cpp:35 | the stored integer lies between zero and the cut, less than one away from it |
| Training.TrainedTreeSeparates | Native_CPP_build/Reco_GAN/Reco_GAN_Adv_Trees/Training.cpp:137-154 | a trained vector lays out a tree that holds a sub-sample of the stated length and keeps different samples apart wherever the depth limit allows |
| Training.CeilLog2IsLeast | Native_CPP_build/Reco_GAN/Reco_GAN_Adv_Trees/Training.cpp:132 | the depth limit is the least k with 2^k >= sub-sample size |
| Training.GrownWithinLimit | Native_CPP_build/Reco_GAN/Reco_GAN_Adv_Trees/Training.cpp:129-154 | a tree grown under that limit holds all samples and no leaf is deeper |
| Training.TreeSize | Native_CPP_build/Reco_GAN/Reco_GAN_Adv_Trees/Training.cpp:129-154 | node count 2k - 1, at most 2^(depth limit + 1) - 1, below four times the sub-sample size |
| Training.CountByDepth | Native_CPP_build/Reco_GAN/Reco_GAN_Adv_Trees/Training.cpp:42-106 | each internal node holds two samples at least, so a tree has at most 1 + depth limit * bucket size nodes |
| Training.Partition | Native_CPP_build/Reco_GAN/Reco_GAN_Adv_Trees/Training.cpp:78-94 | the loop fills both buckets in order and loses no sample |
| Training.DrawCut | Native_CPP_build/Reco_GAN/Reco_GAN_Adv_Trees/Training.cpp:73-75 | the drawn cut lies in [min, max), and nothing else is known of it |
| Training.TrainingModule.constructor | Native_CPP_build/Reco_GAN/Reco_GAN_Adv_Trees/Training.cpp:129-135 | the sub-sample size is clamped to at least 2 and the depth limit is the ceiling of its logarithm |
| Training.TrainingModule.BuildTreeRecursive | Native_CPP_build/Reco_GAN/Reco_GAN_Adv_Trees/Training.cpp:42-106 | for every draw, the call appends exactly the layout of some tree grown from the bucket, fully by LeavesSeparate, and changes nothing below its start index, which it returns |
| Training.TrainingModule.Shuffle | Native_CPP_build/Reco_GAN/Reco_GAN_Adv_Trees/Training.cpp:146 | the data set becomes a permutation of itself |
| Training.TrainingModule.Train | Native_CPP_build/Reco_GAN/Reco_GAN_Adv_Trees/Training.cpp:137-154 | one tree per requested tree, each the layout of a tree grown from a sub-multiset of the data of size min(sub-sample, data set); the data set stays the same multiset |
| Training.TrainedTreeIsWalkable | Native_CPP_build/Reco_GAN/Reco_GAN_Adv_Trees/Predict.cpp:40-54 | for a trained vector and any latency: bounded size, forward links, a walk that ends at a leaf within the depth limit |
| Training.GrownTreeFits | Native_CPP_build/Reco_GAN/Reco_GAN_Adv_Trees/Reco_GAN_Struct.cpp:29-36 | every field of a grown layout fits a 32-bit int |
| Training.TrainedTreeFits | Native_CPP_build/Reco_GAN/Reco_GAN_Adv_Trees/Reco_GAN_Struct.cpp:29-36 | so does every field of a trained tree: for every sub-sample size up to 2^30, and for every larger int when 31 times the data size is below 2^31 |
| ForestFile.ForestRoundTrip | Native_CPP_build/Reco_GAN/Reco_GAN_Adv_Trees/Predict.cpp:110-131 | for every forest of 32-bit nodes, extracting from the printed characters gives the identical forest |
| ForestFile.SampleForest | Native_CPP_build/Reco_GAN/Reco_GAN_Adv_Trees/Training.cpp:175-185 | the characters of the file of one tree with one leaf of size 2 |
| ForestFile.NodeText | Native_CPP_build/Reco_GAN/Reco_GAN_Adv_Trees/Training.cpp:178-183 | a node line holds left, right, 0/1 flag, size and cut in this order, separated by spaces |
| ForestFile.OtherWordsArePassed | Native_CPP_build/Reco_GAN/Reco_GAN_Adv_Trees/Predict.cpp:110-113 | a word other than TREE_START in front of the trees changes nothing that is read |
| ForestFile.GoodNodesStop | Native_CPP_build/Reco_GAN/Reco_GAN_Adv_Trees/Predict.cpp:121-126 | the readable nodes of a broken tree end where the next node cannot be read |
| ForestFile.ReadsNodeBack | Native_CPP_build/Reco_GAN/Reco_GAN_Adv_Trees/Predict.cpp:123-125 | a printed node line reads back as the node: signed indices, 0/1 flag, size, cut |
| ForestFile.ReadsNodesBack | Native_CPP_build/Reco_GAN/Reco_GAN_Adv_Trees/Predict.cpp:121-126 | the node lines of a tree read back in order |
| Decimal.ReadsIntBack | Native_CPP_build/Reco_GAN/Reco_GAN_Adv_Trees/Predict.cpp:124 | extraction of a printed signed integer in range gives it back and stops right behind it |
| Decimal.OutOfRangeFails | Native_CPP_build/Reco_GAN/Reco_GAN_Adv_Trees/Predict.cpp:124 | extraction of a printed integer out of range fails |
| Decimal.ThreeDigitText | Wire/FileWires.cs:154 | a three-digit number is printed as its hundreds, tens and units, in the characters 0 to 9 |
| Decimal.ValueOfDigits | Native_CPP_build/Reco_GAN/Reco_GAN_Adv_Trees/Training.cpp:179-183 | the decimal digits of a number denote that number |
| Predict.WriteTree | Native_CPP_build/Reco_GAN/Reco_GAN_Adv_Trees/Training.cpp:176-185 | appends header, node lines and closing line of one tree |
| Predict.WriteTreeTrainingData | Native_CPP_build/Reco_GAN/Reco_GAN_Adv_Trees/Training.cpp:156-188 | the file becomes the printed forest; an empty forest leaves the file untouched |
| Predict.LoadNodes | Native_CPP_build/Reco_GAN/Reco_GAN_Adv_Trees/Predict.cpp:121-126 | the counted loop extracts the nodes one by one; from the first that cannot be read the links and sizes stay 0 |
| Predict.LoadTree | Native_CPP_build/Reco_GAN/Reco_GAN_Adv_Trees/Predict.cpp:115-128 | node count, nodes and the closing word; a broken tree keeps its readable nodes and its announced count |
| Predict.Predictor.LoadModel | Native_CPP_build/Reco_GAN/Reco_GAN_Adv_Trees/Predict.cpp:97-134 | for every file: a missing one clears the forest and fails; one whose numbers can be read yields exactly its trees; otherwise the trees before the failure, then an empty tree for a count that is no number, or a tree of the announced count that starts with its readable nodes and is 0-linked behind the broken one |
| Predict.Predictor.Score | Native_CPP_build/Reco_GAN/Reco_GAN_Adv_Trees/Predict.cpp:75-87 | 0 for an empty forest; otherwise 2 to an exponent e with e * factor * number of trees equal to minus the walk lengths summed over all trees |
| Predict.ScoreExponent | Native_CPP_build/Reco_GAN/Reco_GAN_Adv_Trees/Predict.cpp:75-87 | the exponent of every score, times the factor and the number of trees, is minus the sum of edges walked plus corrections of the leaves reached |
| Predict.EqualPathsScore | Native_CPP_build/Reco_GAN/Reco_GAN_Adv_Trees/Predict.cpp:85-86 | where every tree gives the path length p, the score is 2 to minus p over the factor, whatever the number of trees |
| Predict.TwoTreesScore | Native_CPP_build/Reco_GAN/Reco_GAN_Adv_Trees/Predict.cpp:75-87 | two trees with paths of one edge each score 0.5 with factor 1 |
| Predict.Predictor.ScoreList | Native_CPP_build/Reco_GAN/Reco_GAN_Adv_Trees/Predict.cpp:136-145 | one score per latency, in order |
| Predict.ShorterPathsScoreHigher | Native_CPP_build/Reco_GAN/Reco_GAN_Adv_Trees/Predict.cpp:75-87 | for any monotone power: a latency whose paths are nowhere longer never scores lower |
| Predict.TrainedForestHasPaths | Native_CPP_build/Reco_GAN/Reco_GAN_Adv_Trees/Predict.cpp:80-84 | in a trained forest every latency has a path length |
| Predict.TrainThenPredict | Native_CPP_build/Reco_GAN/Reco_GAN_Adv_Trees/Training.cpp:201-215 | training, printing, loading and scoring, for all data: if the numbers of the trained forest fit an int, the loaded forest is the trained one, every live latency gets its score, and one exists whenever the factor is not 0; they do fit when samples and IndicesFit allow |
| DnsName.EncodeDnsName | Native_CPP_build/Generic_Module/wires.cpp:26-53 | for any name, the loop yields the length-prefixed labels and a null octet, the labels being those of NameIsItsLabels |
| DnsName.NameRoundTrip | Native_CPP_build/Generic_Module/wires.cpp:26-53 | decoding by section 3.1 of RFC 1035 gives the labels back if and only if none exceeds 63 octets; the encoding is at most |name| + 2 long |
| DnsName.NameIsItsLabels | Native_CPP_build/Generic_Module/wires.cpp:32-50 | every name is its labels in order with runs of octet 46 around them, at least one between two labels; no label is empty or holds that octet |
| DnsName.NameIsJoinedLabels | Native_CPP_build/Generic_Module/wires.cpp:32-50 | a name without empty labels is its labels joined by single octets 46 |
| DnsName.JoinedLabelsComeBack | Native_CPP_build/Generic_Module/wires.cpp:32-50 | non-empty labels without octet 46 come back from their joined form |
| DnsName.SampleName | Native_CPP_build/Generic_Module/wires.cpp:26-53 | abc.de is encoded as 3 a b c 2 d e 0 |
| DnsName.EncodingIsShort | Native_CPP_build/Generic_Module/wires.cpp:32-50 | the encoded labels take at most one octet more than the text |
| DnsName.SkipNameField | Native_CPP_build/Generic_Module/wires.cpp:55-76 | the loop computes the offset behind the name field |
| DnsName.SkipLandsBehindName | Native_CPP_build/Generic_Module/wires.cpp:55-76 | skipping a name placed anywhere in any buffer, ended by a null octet or a compression pointer, lands exactly behind it |
| DnsMessage.WalkRefinesMessage | Native_CPP_build/ReconDNS/DomainStack.cpp:100-137 | for every well-formed response, in a buffer of any size and content behind it, the offset walk returns the data of the first type A record with four octets, or none |
| DnsMessage.AnswerIsFirstAddress | Native_CPP_build/ReconDNS/DomainStack.cpp:121-125 | the answer called for is the data of the first record of type 1 with four octets of data, and there is none exactly without such a record |
| DnsMessage.MessageOctets | Native_CPP_build/ReconDNS/DomainStack.cpp:100-106 | header, question name, type and class of an encoded message, octet by octet with high octets first |
| DnsMessage.RecordOctets | Native_CPP_build/ReconDNS/DomainStack.cpp:115-119 | type, class, time to live, length and data of an encoded record, octet by octet |
| DnsMessage.TurnFollowsRecord | Native_CPP_build/ReconDNS/DomainStack.cpp:108-137 | over encoded records the loop moves from record start to record start |
| DnsMessage.RecordIsOneTurn | Native_CPP_build/ReconDNS/DomainStack.cpp:110-136 | one turn at a record start either stops with its address or goes on right behind it |
| DnsMessage.RecordLayout | Native_CPP_build/ReconDNS/DomainStack.cpp:110-119 | type, data length and data are read from where the encoding puts them |
| DnsMessage.TurnsAnswer | Native_CPP_build/ReconDNS/DomainStack.cpp:108-137 | a loop that takes one turn per record stops at the first usable address |
| DnsMessage.WalkStaysInside | Native_CPP_build/ReconDNS/DomainStack.cpp:83-86 | with four octets of room behind the received bytes, as a datagram leaves, the walk never reads outside the buffer |
| DnsMessage.AddressHasFourOctets | Native_CPP_build/ReconDNS/DomainStack.cpp:122-125 | an address found in any buffer, well-formed or not, has four octets |
| DnsMessage.DottedIsInjective | Native_CPP_build/ReconDNS/DomainStack.cpp:127-131 | different addresses give different strings |
| DnsMessage.QuadReadsBack | Native_CPP_build/ReconDNS/DomainStack.cpp:127-131 | reading a number, passing over a point, and so on, gives the four octets of a rendered address back |
| DnsMessage.SampleQuad | Native_CPP_build/ReconDNS/DomainStack.cpp:127-131 | the octets 192, 168, 0 and 1 are rendered as 192.168.0.1 |
| DnsTruncation.CutMessage | Native_CPP_build/ReconDNS/DomainStack.cpp:100-137 | for every well-formed response and every number of its octets received, in a buffer of any size and content behind them: no address before the data of the first usable record is reached, and from there the four octets that the buffer holds, or a read outside it |
| DnsTruncation.AnnouncedShort | Native_CPP_build/ReconDNS/TorDomainStack.cpp:85-132 | of the first n octets of a response, announced and received whole over TCP: its first usable address if and only if n reaches the end of that record, a read outside the buffer if and only if n ends in its last four octets, no address if and only if n ends before |
| DnsTruncation.EndedEarly | Native_CPP_build/ReconDNS/TorDomainStack.cpp:93-123 | when the peer stops after n octets, missing address octets are read as zeros of the buffer |
| DnsTruncation.CutDatagram | Native_CPP_build/ReconDNS/DomainStack.cpp:83-125 | when a datagram is cut, missing address octets are read from what the buffer held before |
| DnsTruncation.NothingFromNothing | Native_CPP_build/ReconDNS/DomainStack.cpp:108-137 | a response without a usable record gives no address however it is cut |
| DnsTruncation.ReadOutsideBuffer | Native_CPP_build/ReconDNS/TorDomainStack.cpp:93-123 | a concrete TCP message of 28 octets for which the address is read behind the end of the buffer |
| DnsTruncation.SkipCutName | Native_CPP_build/Generic_Module/wires.cpp:55-76 | a name that is cut is skipped to the end of the received octets or beyond |
| DnsTruncation.AddressInMessage | Native_CPP_build/ReconDNS/DomainStack.cpp:122-125 | in the whole message the four octets found there are the data of the first type A record of that length |
| DnsResolver.BuildQuery | Native_CPP_build/ReconDNS/TorDomainStack.cpp:59-76 | the query packet, octet by octet: id, flags 1 0, one question, three zero counts, the encoded name, type 1 and class 1 |
| DnsResolver.SkipBuiltQuery | Native_CPP_build/ReconDNS/TorDomainStack.cpp:69-76 | skipping the built query from offset 12 lands 4 octets before its end, where type and class stand |
| DnsResolver.AnswerLoop | Native_CPP_build/ReconDNS/DomainStack.cpp:100-137 | the loop with its running offset computes the answer walk for arbitrary bytes |
| DnsResolver.ResolveDatagram | Native_CPP_build/ReconDNS/DomainStack.cpp:86-140 | for any datagram: empty below 12 octets, else the walk, never outside the buffer, rendered as dotted quad |
| DnsResolver.ReceiveMessage | Native_CPP_build/ReconDNS/TorDomainStack.cpp:85-101 | for every fragmentation behind the prefix, the buffer is the next N octets of the stream, zero-filled when it ends early; a one-octet first read gives up |
| DnsResolver.ResolveStream | Native_CPP_build/ReconDNS/TorDomainStack.cpp:85-138 | the answer is that of the walk over the reassembled message |
| DnsResolver.WholePayload | Native_CPP_build/ReconDNS/TorDomainStack.cpp:91-101 | a stream that holds the announced message yields exactly its octets |
| DnsResolver.TcpAgreesWithUdp | Native_CPP_build/ReconDNS/TorDomainStack.cpp:103-132 | the same well-formed message gives the same answer over TCP and over UDP |
| TextSearch.HeaderEndIsFinal | Native_CPP_build/Generic_Module/interface_scan_module.cpp:142-152 | once the blank line is seen in what was received, more input does not move it |
| TextSearch.HeaderEndIsShortest | Native_CPP_build/Generic_Module/interface_scan_module.cpp:142-145 | the search finds length h if and only if the first h characters are the shortest NUL-free prefix ending in a blank line |
| Receiving.ReceiveInto | Native_CPP_build/Generic_Module/interface_scan_module.cpp:121-140 | after any read, retried or not, the buffer holds the received prefix of the stream, NUL-terminated when it grew |
| Receiving.SearchBuffer | Native_CPP_build/Generic_Module/interface_scan_module.cpp:142 | the search over the C string of the buffer is the search over the received prefix |
| BodyCapture.GatherResponse | Native_CPP_build/Response_Body_capture/res_body_captio.cpp:143-218 | an uncancelled run is undefined if and only if its first piece is non-empty as a C string and lacks "HTTP/"; otherwise it ends with a prefix of the stream that settles the body, and with the true place of the blank line |
| BodyCapture.CapturedIsFinal | Native_CPP_build/Response_Body_capture/res_body_captio.cpp:200-218 | when the loop ends, nothing received later could change the captured body |
| BodyCapture.CaptureBody | Native_CPP_build/Response_Body_capture/res_body_captio.cpp:143-245 | for every way of cutting the stream into reads: an uncancelled run is undefined if and only if the first piece lacks a status, and otherwise captures the same function of the stream |
| BodyCapture.BufferStatus | Native_CPP_build/Response_Body_capture/res_body_captio.cpp:177-180 | the status search of each turn is undefined exactly when the received bytes, as a C string, are non-empty and lack "HTTP/" |
| BodyCapture.PieceStatus | Native_CPP_build/Response_Body_capture/res_body_captio.cpp:177-186 | a later turn is undefined only if the first one is |
| BodyCapture.OneByteRead | Native_CPP_build/Response_Body_capture/res_body_captio.cpp:177-180 | a concrete response whose run is undefined when its first byte arrives alone and captures one byte of body when five arrive together |
| BodyCapture.NothingCaptured | Native_CPP_build/Response_Body_capture/res_body_captio.cpp:181-185 | nothing is captured exactly when no header block ends within the first 8191 bytes |
| BodyCapture.CopyBody | Native_CPP_build/Response_Body_capture/res_body_captio.cpp:238-244 | at most 4095 bytes of what was received behind the headers are copied |
| BodyCapture.CapturedBody | Native_CPP_build/Response_Body_capture/res_body_captio.cpp:238-244 | for a header block of h <= 8191 bytes that function is the first min(4095, body length, 8191 - h) bytes of the body |
| HeaderSanitiser.ReplaceFirst | Native_CPP_build/Generic_Module/interface_scan_module.cpp:51-54 | replacing the first escape does not change what one pass over the text makes of it |
| HeaderSanitiser.ReplaceEscapes | Native_CPP_build/Generic_Module/interface_scan_module.cpp:49-54 | the in-place loop ends, equals one left-to-right pass, and leaves no escape behind |
| HeaderSanitiser.SanitiseHeaders | Native_CPP_build/Generic_Module/interface_scan_module.cpp:49-69 | the whole sanitiser computes the trimmed non-empty lines of the unescaped text, each ended by CRLF |
| HeaderSanitiser.TrimLine | Native_CPP_build/Generic_Module/interface_scan_module.cpp:61-64 | the popping loop removes exactly the trailing CR, LF and spaces |
| HeaderSanitiser.CleanLinesAreClean | Native_CPP_build/Generic_Module/interface_scan_module.cpp:59-68 | every output line is non-empty, holds no LF and ends in none of CR, LF, space |
| HeaderSanitiser.SanitiserIsIdempotent | Native_CPP_build/Generic_Module/interface_scan_module.cpp:49-69 | sanitising twice is sanitising once, for every text |
| RequestText.RequestLines | Native_CPP_build/Generic_Module/interface_scan_module.cpp:83 | for a path and domain without LF the request reads back as GET, path and HTTP/1.1, as Host and domain, as the sanitised lines and one empty line, and nothing else |
| RequestText.CleanLinesAreKept | Native_CPP_build/Generic_Module/interface_scan_module.cpp:58-69 | the sanitised lines are the lines of the text that are not blank, in order, each without the CR, LF and spaces at its end |
| RequestText.TrimCutsBlanks | Native_CPP_build/Generic_Module/interface_scan_module.cpp:61-64 | trimming cuts CR, LF and spaces only, and stops at the last other character |
| RequestText.UnescapedPieces | Native_CPP_build/Generic_Module/interface_scan_module.cpp:51-54 | unescaping puts CRLF where each escape stood and changes nothing else |
| HeaderSanitiser.OnlyDividerIsLast | Native_CPP_build/Generic_Module/interface_scan_module.cpp:65-68 | joined non-empty lines hold a blank line only at the end |
| HeaderSanitiser.RequestEndsAtBlankLine | Native_CPP_build/Generic_Module/interface_scan_module.cpp:83 | for a path and domain without LF, CRLFCRLF occurs in the request at its end and nowhere else |
| StatusLine.NoSelfOverlap | Native_CPP_build/Generic_Module/wires.cpp:105-112 | "HTTP/" does not overlap itself, so stepping 5 characters past a hit skips none |
| StatusLine.ExtractStatus | Native_CPP_build/Generic_Module/wires.cpp:96-134 | for every C string: undefined exactly when it is not empty and lacks "HTTP/", else -1 for the empty one and the code at the true last "HTTP/", in -1..999 |
| StatusLine.StatusStays | Native_CPP_build/Generic_Module/wires.cpp:102-112 | a received prefix that has a status keeps one while more is received |
| StatusLine.FirstBytesOfResponse | Native_CPP_build/Generic_Module/wires.cpp:98-115 | the first n bytes of a response that starts with "HTTP/" lack a status exactly for 0 < n < 5 |
| StatusLine.ReadCode | Native_CPP_build/Generic_Module/wires.cpp:115-133 | the 3-digit number behind the first space, or -1 |
| StatusLine.PrintedCodeIsStatus | Native_CPP_build/Generic_Module/wires.cpp:102-133 | a three-digit code printed behind the last "HTTP/1.1 " of a text is its status, whatever stands around it |
| StatusLine.SampleStatus | Native_CPP_build/Generic_Module/wires.cpp:96-134 | the status of HTTP/1.1 200 OK is 200 |
| StatusLine.StatusIsUnique | Native_CPP_build/Generic_Module/wires.cpp:102-112 | a text has at most one code, and none if it lacks a status |
| Handles.OpenedAndReleased | Native_CPP_build/TorScan/tor_scan.cpp:118-227 | in a disciplined trace a handle is opened as often as released, plus one while it is open |
| Handles.ReleasedExactlyOnce | Native_CPP_build/TorScan/tor_scan.cpp:218-224 | a disciplined trace that ends with nothing open released every handle exactly as often as it opened it |
| Handles.NoUseAfterRelease | Native_CPP_build/TorScan/tor_scan.cpp:118-227 | every use comes after an opening with no release in between |
| TorScan.SockTunnel | Native_CPP_build/Generic_Module/SocksModule.cpp:85-159 | a descriptor is open exactly when one is returned; every failure closes it |
| TorScan.TorRotation | Native_CPP_build/TorScan/tor_scan.cpp:76-116 | the control socket is closed on every exit, and the code is 0 exactly when both commands were sent |
| TorScan.SecureTunnel | Native_CPP_build/TorScan/tor_scan.cpp:136-147 | a failed handshake frees the handle and closes its socket |
| TorScan.CleanUp | Native_CPP_build/Generic_Module/interface_scan_module.cpp:73-74 | the handle is released before the socket, and nothing stays open |
| TorScan.Write | Native_CPP_build/Generic_Module/interface_scan_module.cpp:93-99 | a write on a null handle or negative descriptor fails; a write touches open handles only |
| TorScan.ReceiveHeaders | Native_CPP_build/Generic_Module/interface_scan_module.cpp:108-153 | for every read size and every number of TLS retries, an uncancelled run stores the same headers, a function of the stream |
| TorScan.HeadersOfBlock | Native_CPP_build/Generic_Module/interface_scan_module.cpp:142-152 | that function is the shortest prefix ending in CRLFCRLF when it is at most 65535 bytes and NUL-free |
| TorScan.HeadersAreBlock | Native_CPP_build/Generic_Module/interface_scan_module.cpp:142-152 | non-empty stored headers are exactly a shortest NUL-free prefix ending in CRLFCRLF of at most 65535 bytes |
| TorScan.InterfaceScan | Native_CPP_build/Generic_Module/interface_scan_module.cpp:46-156 | cancellation and a failed write release both handles and store nothing; any other run keeps both with the caller and stores the headers of the stream; for a path and domain without LF the request consists of the request line with the path, the host line with the domain, the sanitised lines and one empty line |
| TorScan.OpenTunnel | Native_CPP_build/TorScan/tor_scan.cpp:132-157 | nothing is open after a failed tunnel, a failed handshake or a cancellation |
| TorScan.Reopen | Native_CPP_build/TorScan/tor_scan.cpp:184-199 | a failed second tunnel leaves nothing open but does not end the run; a failed handshake does |
| TorScan.Retry | Native_CPP_build/TorScan/tor_scan.cpp:163-202 | one rotation and at most one more tunnel, with everything released before; headers of the second stream or none, with their status or the mark that they lack one |
| TorScan.FirstAttempt | Native_CPP_build/TorScan/tor_scan.cpp:126-160 | the run up to the first status: at most one tunnel, nothing open when it is given up, and otherwise the headers of the first stream, or none, with their status or the mark that they lack one |
| TorScan.TorScan | Native_CPP_build/TorScan/tor_scan.cpp:118-227 | over every run: disciplined trace, at most two tunnels and one rotation, nothing of the scan open when it returns; a run neither cancelled nor hit by a failure completes if and only if each header block it examines is empty or contains "HTTP/", and then reports headers determined by the two streams; it rotates exactly when the first status is below 200, or at least 400 and not 404 |
| TorScan.RefusedStatus | Native_CPP_build/TorScan/tor_scan.cpp:163-166 | headers make the scan rotate exactly when their status is below 200, or at least 400 and not 404 |
| TorScan.EndIsDetermined | Native_CPP_build/TorScan/tor_scan.cpp:160-216 | how an undisturbed run ends, from the headers that it examined last |
| TorScan.Conclude | Native_CPP_build/TorScan/tor_scan.cpp:205-227 | a run that has a status releases everything and reports headers, status and first line; one without leads no further |
| TorScan.Judge | Native_CPP_build/TorScan/tor_scan.cpp:160-163 | headers are judged by their status, or found to have none |
| TorScan.BlankReply | Native_CPP_build/TorScan/tor_scan.cpp:160 | a concrete first stream whose header block has no status, so that the run does not return |
| TorScan.ScanAlone | Native_CPP_build/TorScan/tor_scan.cpp:118-227 | a scan on its own that returns opens and releases every handle equally often |
| RecordRoundTrip.RecordFileRoundTrip | Native_CPP_build/Reco_GAN/Reco_GAN_Adv_Trees/Soft_404_Catcher.cpp:106-183 | for every list of records with 32-bit statuses, under LF and CRLF: reading the printed file gives the list back in order, bodies newline-normalised, if and only if each target is a non-empty NUL-free line of at most 3071 characters (under LF not ending in a carriage return) and each terminated body has no blank line, no NUL and at most 4095 characters |
| RecordReading.RecordReadsBack | Native_CPP_build/Reco_GAN/Reco_GAN_Adv_Trees/Soft_404_Catcher.cpp:120-179 | one printed record is read back whatever follows it, an empty body as the warning line |
| RecordReading.ExpectedBody | Native_CPP_build/Reco_GAN/Reco_GAN_Adv_Trees/Soft_404_Catcher.cpp:157-175 | a body made of lines, the last with or without its line end, is expected back with LF behind each line; target and status are unchanged |
| RecordReading.ExpectedWarning | Wire/FileWires.cs:156-163 | an empty body is expected back as the warning line |
| RecordReading.PairIsPassed | Native_CPP_build/Reco_GAN/Reco_GAN_Adv_Trees/Soft_404_Catcher.cpp:137-138 | a line without a rule behind it is passed over, with the line that lacks the rule |
| RecordReading.HeadIsPassed | Native_CPP_build/Reco_GAN/Reco_GAN_Adv_Trees/Soft_404_Catcher.cpp:153-154 | target, rule and status without a second rule are passed over, with the line that lacks it |
| RecordReading.StatusFallsBack | Native_CPP_build/Reco_GAN/Reco_GAN_Adv_Trees/Soft_404_Catcher.cpp:143-150 | a status line that is no 32-bit integer counts as 0 |
| RecordReading.BodyEndsAtBlank | Native_CPP_build/Reco_GAN/Reco_GAN_Adv_Trees/Soft_404_Catcher.cpp:164-166 | a body is its lines up to a blank line |
| RecordReading.BodyEndsWhenFull | Native_CPP_build/Reco_GAN/Reco_GAN_Adv_Trees/Soft_404_Catcher.cpp:169-170 | a body ends with the line that makes it at least 4095 characters long |
| RecordReading.FieldIsCut | Native_CPP_build/Reco_GAN/Reco_GAN_Adv_Trees/Soft_404_Catcher.cpp:133-134 | a field holds the first characters of a text without NUL |
| RecordRoundTrip.ReaderYields | Native_CPP_build/Reco_GAN/Reco_GAN_Adv_Trees/Soft_404_Catcher.cpp:132-178 | whatever the file holds, every record read is within its fields, has a one-line target and no blank line in its body |
| RecordRoundTrip.ShortenedTarget | Native_CPP_build/Reco_GAN/Reco_GAN_Adv_Trees/Soft_404_Catcher.cpp:123-134 | under LF a longer target that ends in a carriage return comes back without it |
| RecordMisreading.AtMostOneEach | Native_CPP_build/Reco_GAN/Reco_GAN_Adv_Trees/Soft_404_Catcher.cpp:120-179 | a reader out of step, started in the lines of one record, reads at most one record for these and each record behind |
| RecordMisreading.NeverCatchesUp | Native_CPP_build/Reco_GAN/Reco_GAN_Adv_Trees/Soft_404_Catcher.cpp:120-179 | started behind too much of a record to find a body of its size, the reader never comes to that record and the ones behind it |
| RecordPieces.LoneReturnIsLost | Native_CPP_build/Reco_GAN/Reco_GAN_Adv_Trees/Soft_404_Catcher.cpp:123-128 | under LF no list whose first target is a lone carriage return comes back |
| RecordRoundTrip.BlankLineIsLost | Native_CPP_build/Reco_GAN/Reco_GAN_Adv_Trees/Soft_404_Catcher.cpp:164-166 | a concrete body with a blank line that does not come back |
| RecordFile.WriteTextResBody | Wire/FileWires.cs:148-167 | the appended lines are the printed form of the records |
| RecordFile.PrintedText | Wire/FileWires.cs:150-165 | each record is printed as target, rule, status, rule, body or warning, and an empty line, with one more behind the last record |
| RecordFile.SampleFile | Wire/FileWires.cs:148-165 | the characters of the file of one record |
| RecordFile.ParseFile | Native_CPP_build/Reco_GAN/Reco_GAN_Adv_Trees/Soft_404_Catcher.cpp:106-183 | the nested line loops compute the records of any text |
| RecordFile.GatherBody | Native_CPP_build/Reco_GAN/Reco_GAN_Adv_Trees/Soft_404_Catcher.cpp:157-175 | the inner loop gathers body lines up to a blank line, the end or 4095 characters |
| LatencySpikes.SpikeBound | Wire/Wire.cs:40-52 | for every list of n >= 10 latencies the number m of spikes has 9m < n - 1, even m(10n - 1) < n(n - 1); ten values never spike |
| LatencySpikes.SpikesAreLatencies | Wire/Wire.cs:40-52 | from ten values on the result lists exactly the latencies x with x > mean and (n - 1)(x - mean)^2 > 9 times the squared distances, each with its multiplicity and in list order; shorter lists give nothing |
| LatencySpikes.ElevenValuesCanSpike | Wire/Wire.cs:40-52 | eleven values can hold a spike, so ten is the largest size that never does |
| Statistics.ChebyshevBound | Native_CPP_build/Reco_GAN/Reco_GAN_Module.cpp:92-117 | against its own mean and deviation, m * k * k <= n values lie outside k deviations, strictly fewer when any does |
| Statistics.ThresholdBound | Native_CPP_build/Reco_GAN/Reco_GAN_Training.cpp:131-142 | the threshold mean + k * stddev is exceeded by m of its n training values only if m * (1 + k * k) <= n |
| Statistics.OneSidedBound | Wire/Wire.cs:44-51 | of n values with squared distances S, m lie more than t above the mean only if m * (n * t * t + S) <= n * S |
| Statistics.ThresholdImpliesScore | Native_CPP_build/Reco_GAN/Reco_GAN_Module.cpp:148-158 | what the threshold rule flags, the z-score rule flags, for every factor k |
| Statistics.FlagOwnData | Native_CPP_build/Reco_GAN/Reco_GAN_Module.cpp:92-117 | train a column and predict the same column: each flag is a comparison with mean and k deviations, both flag counts are bounded, nothing is flagged by threshold when the deviation is 0, and the threshold flags are among the z-score flags |
| Statistics.ScoreFlagsCount | Native_CPP_build/Reco_GAN/Reco_GAN_Module.cpp:92-117 | the flags of the z-score rule count the values outside k deviations |
| Statistics.ThresholdFlagsCount | Native_CPP_build/Reco_GAN/Reco_GAN_Module.cpp:148-158 | the flags of the threshold rule count the values above it |
| Statistics.MeanStddev | Native_CPP_build/Reco_GAN/Reco_GAN_Training.cpp:157-188 | the two loops compute mean and root of the mean squared distance; zeros for no data |
| Statistics.SumIsAdditive | Native_CPP_build/Reco_GAN/Reco_GAN_Training.cpp:163-170 | the sum over one value is its term and the sum over two lists is the sum of both, which fixes mean and squared distances |
| Statistics.SampleMean | Native_CPP_build/Reco_GAN/Reco_GAN_Training.cpp:157-188 | 1, 2 and 6 have mean 3 and squared distances 14 |
| Statistics.ZScores | Native_CPP_build/Reco_GAN/Reco_GAN_Prediction_Module.cpp:137-161 | one normalised distance per value, none at all for deviation 0 |
| Statistics.Predict | Native_CPP_build/Reco_GAN/Reco_GAN_Module.cpp:92-158 | both rules, flag by flag, for one column |
| TokenColumns.ScoreOfColumn | Native_CPP_build/Reco_GAN/Reco_GAN_Prediction_Module.cpp:196-213 | on any data the averaged score is (mean of the column - trained mean) / trained deviation, and 0 for no values or deviation 0 |
| TokenColumns.DeviationOfColumn | Native_CPP_build/Reco_GAN/Reco_GAN_Training.cpp:206-226 | on any data the deviation squared is the mean squared distance, and it is 0 exactly when that is below 1e-12 squared |
| TokenColumns.ColumnEntries | Native_CPP_build/Reco_GAN/Reco_GAN_Prediction_Module.cpp:202-210 | a column lists its entry of the rows long enough to have it, in order |
| TokenColumns.OwnColumnScoresZero | Native_CPP_build/Reco_GAN/Reco_GAN_Prediction_Module.cpp:164-216 | against its own mean a column scores exactly 0 and is never flagged |
| TokenColumns.ScoreOwnTokens | Native_CPP_build/Reco_GAN/Reco_GAN_Prediction_Module.cpp:164-216 | scoring the token rows trained on gives 0 for every column |
| TokenColumns.CharTokensZScore | Native_CPP_build/Reco_GAN/Reco_GAN_Prediction_Module.cpp:164-216 | one average score per column that model and first row share, over the rows that have it |
| TokenColumns.AverageScore | Native_CPP_build/Reco_GAN/Reco_GAN_Prediction_Module.cpp:196-213 | the loop averages over the rows long enough to have the column |
| TokenColumns.ColumnStatistics | Native_CPP_build/Reco_GAN/Reco_GAN_Training.cpp:198-226 | mean and deviation of one column, deviations below 1e-12 taken for 0 |
| TokenColumns.MeanStddevTokens | Native_CPP_build/Reco_GAN/Reco_GAN_Training.cpp:189-228 | mean and deviation of every column of the first row |
| TokenColumns.TokenThresholds | Native_CPP_build/Reco_GAN/Reco_GAN_Training.cpp:144-156 | one threshold per column: mean + k * deviation |
| TokenColumns.PredictTokens | Native_CPP_build/Reco_GAN/Reco_GAN_Module.cpp:161-173 | a row is flagged exactly when some shared column exceeds its threshold |

## Left out

- The C# shell, JSON and SQLite, P/Invoke marshalling, console output, clocks, sleeps, file paths and environment lookups: glue without logic of its own.
- SOCKS and control-port replies byte by byte: only success or failure of each exchange is kept, with the handle operations around it.
- The initial connect, handshake and cancel polls of `ReconDeBodyCaptio::scan`, and its handles: its discipline differs from the Tor scan's, and only the captured body is claimed.
- The status code stored by `ReconDeBodyCaptio::scan`: it is recomputed from each partial buffer and so depends on how the stream is cut.
- The contents of `captured_body` when no blank line was found: the field is never written; the model answers `None`.
- Floating-point rounding, infinities and NaN, and the rounding to four decimals of the files that carry means, deviations and thresholds between training and prediction.
- The query header of the UDP resolver: three of its counts are not set before sending. `BuildQuery` models the Tor resolver's query.
- Requests longer than 10239 characters, which `snprintf` cuts, and the `strncpy` limits on constructor fields.
- `Waf_Catcher.cpp`, the telemetry compiler, the `.rfo`, `.rso` and `.rxo` parsers, the other scanners, and the status-code tables: easy members, or no property to state.
- `isIncreasingLatency` and `isDecreasingLatency`: each compares an element with itself.
- The choice of a new name for an existing record file: the program computes it and then writes to the original path.
- Text encodings: characters of the record file are not broken into UTF-8 bytes, so the size limits count characters.
- Predict.Predictor.LoadModel: in a file in which some number cannot be read, the fields of the broken node, and the flags and cuts behind it, are undetermined; a count that is negative or out of range (`Aborted`), and memory exhaustion for huge counts, end the program and are not modelled.
- Predict.WriteTreeTrainingData: a file that cannot be opened for writing is not modelled.
- Predict.Predictor.Score: a mean path divided by the factor 0, for a sub-sample size of at most 1, is `None` instead of an IEEE infinity or NaN.
- Predict.TrainThenPredict: when a cut or a node index does not fit an `int`, its conversion is undefined or wraps and nothing is claimed of the loaded forest; the labels printed beside the scores are left out.
- Training.GrownTreeFits: only for samples in the range of `int`, since the conversion of other cuts is undefined.
- DnsResolver.ResolveStream: a message of fewer than 12 octets, whose header the program reads outside its buffer, and an address cut off at the end of the buffer, are `OutsideBuffer`; what the program makes of such a read is undefined.
- DnsResolver.TcpAgreesWithUdp: the first `recv` of the TCP resolver must deliver both prefix octets; one octet makes the program give up, which `ReceiveMessage` states.
- TorScan.InterfaceScan: the latency and the path part of the reported domain are not modelled; `SSL_new` is taken to succeed.
- RecordRoundTrip.RecordFileRoundTrip: statuses fit an `int`, as the program's do.
- TokenColumns.MeanStddevTokens: rows shorter than the first one are read out of range by the program and are excluded.
