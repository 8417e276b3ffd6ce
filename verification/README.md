# Distributed CTL model checker — a Dafny model

This project models the core of a parameter-synthesising CTL model checker. The checker
labels the nodes of a rectangular abstraction of an ODE model with *colour sets*: the
parameter values for which a formula holds at the node. The state space is cut into
slices along the first variable. Every rank of the MPI job owns one slice.

A formula is checked bottom-up:

- Propositions are labelled from a native search.
- Negation and conjunction are computed node by node.
- Exists-next and exists-until walk the predecessor relation backwards. Whenever a walk
  reaches a node that another rank owns, it hands that rank a *job*.
- A listener thread receives the jobs.
- A terminator counts the ranks that are still working and the jobs still outstanding.

The model covers these modules:

- **Formulas**: the CTL formula tree shared by every checker.
- **TreeColorSet**: colour sets, one finite set of parameter values per parameter
  dimension, and the decoding of the interval buffers that jobs carry.
- **Models, Partitioner, DistGraph**: the model's variable and parameter ranges, the
  slicing of the state space, and the ownership tests built on it.
- **DistNode, NodeFactory**: nodes with their labels and successor edges, and the rank's
  node cache.
- **Verificator**: `FormulaVerificator`, the per-rank algorithm for exists-next,
  exists-until, negation and conjunction. Jobs for other ranks are appended to an outbox.
- **DistChecker**: `DistributedModelChecker.check`, which checks operands before the
  formula and labels propositions from the cache.
- **Listener, Termination**: the job wire format, the bookkeeping of outstanding jobs, and
  the receive loops as step functions over the messages that arrive.
- **IntChecker, BoolChecker**: the two earlier sequential checkers. One keeps integer
  colours per node; the other keeps Boolean marks.
- **Pattern, OdeFormula**: the frontend's pattern checker over direction propositions, and
  its rewrite that relaxes a parameter constraint.
- **BoolNetwork**: the Boolean-network playground's model adapter. Its nodes are
  species-level vectors cached by hash.
- **JavaInt, Wrappers**: Java `int` arithmetic and `Arrays.hashCode`, and `Result`/`Option`
  for the exceptions the code throws.

Native code is passed in as data: the predecessor searches, the initial-node searches and
the float-proposition evaluation. MPI sends become an outbox, and receives become a
sequence of incoming messages.

## Model

| member | source | states |
|---|---|---|
| Verificator.ProcessFormula | src/cz/muni/fi/distributed/checker/FormulaVerificator.java:30-63 | a primary run fails with an index error exactly when the operator reads a missing operand, negation using the corrected full parameter range (ProcessNegationAsWritten has the source's range); otherwise only labels of the formula itself change, no cached node is lost, and operators other than EX, EU, negation and AND leave the rank's state untouched |
| Verificator.ReceiveFormula | src/cz/muni/fi/distributed/checker/FormulaVerificator.java:65-80 | with colours of the model's dimension, a received job registers its node and fails only for an EU formula without two operands; for EX the node's label gains exactly the received colours and nothing else changes; colours of another dimension take the paths of ReceiveMisfit |
| Verificator.ReceiveMisfit | src/cz/muni/fi/distributed/checker/FormulaVerificator.java:65-80 | with colours of another dimension, EX throws an index error exactly when the node already has a label and the colours are shorter, otherwise unions the first dimensions or stores the colours as they came; EU throws when the colours are longer than the model's or have no dimension, and when they are shorter it throws unless the meet with φ has an empty dimension (no change) or the label is new (the meet is stored as it came) |
| Verificator.NarrowJobFails | src/cz/muni/fi/distributed/checker/SecondaryTaskListener.java:35 | with one variable and two parameters, the listener decodes a job's colours with one dimension per variable, and the exists-next job it receives for a node that already has a two-dimensional label throws an index error |
| Verificator.ReceiveNext | src/cz/muni/fi/distributed/checker/FormulaVerificator.java:66-70 | a received EX job adds its colours to the target's label with no further propagation and no new jobs |
| Verificator.ReceiveUntil | src/cz/muni/fi/distributed/checker/FormulaVerificator.java:71-78 | a received EU job keeps the other formulas' labels and only grows labels of the formula |
| Verificator.ReceiveUntilFacts | src/cz/muni/fi/distributed/checker/FormulaVerificator.java:71-78 | after a received EU job the target holds the received colours restricted to its φ colours, every added colour is a φ colour, and jobs are only appended |
| Verificator.ProcessNext | src/cz/muni/fi/distributed/checker/FormulaVerificator.java:82-101 | processNext sends exactly one job per foreign predecessor of each node valid for the operand and changes no other formula |
| Verificator.ProcessNextLabels | src/cz/muni/fi/distributed/checker/FormulaVerificator.java:82-101 | after processNext a node's EX label is its old label plus the colours of every edge from it into an operand node, restricted to that node's operand colours |
| Verificator.Seeds | src/cz/muni/fi/distributed/checker/FormulaVerificator.java:85 | the nodes and colours an operator starts from are exactly those getAllValidNodes returns, and labels are unchanged |
| Verificator.ComputePredecessors | src/cz/muni/fi/distributed/checker/FormulaVerificator.java:88 | the predecessor list is the native one with each edge's colours intersected with the requested colours, and every predecessor is registered in the cache |
| Verificator.PredList | src/cz/muni/fi/distributed/checker/FormulaVerificator.java:88 | the list keeps the native predecessors in order, each with its edge colours intersected dimension by dimension |
| Verificator.ForeignJobsExact | src/cz/muni/fi/distributed/checker/FormulaVerificator.java:90-98 | a job is sent for a predecessor if and only if another rank owns it, and each job carries the running task and the source node |
| Verificator.NextPreds | src/cz/muni/fi/distributed/checker/FormulaVerificator.java:88-99 | the predecessor loop appends exactly the foreign jobs to the outbox and changes only labels of the formula |
| Verificator.NextPredsLabels | src/cz/muni/fi/distributed/checker/FormulaVerificator.java:88-99 | after the predecessor loop each owned predecessor's label has gained exactly its edge colours |
| Verificator.NextStep | src/cz/muni/fi/distributed/checker/FormulaVerificator.java:90-98 | one predecessor either gains its edge colours (owned) or produces one job (foreign), never both |
| Verificator.NextTargets | src/cz/muni/fi/distributed/checker/FormulaVerificator.java:85-100 | the loop over operand nodes appends the jobs for all of them and touches no other formula |
| Verificator.NextTargetsLabels | src/cz/muni/fi/distributed/checker/FormulaVerificator.java:85-100 | the loop over operand nodes adds the summed contributions of all their predecessor edges to each label |
| Verificator.ProcessUntil | src/cz/muni/fi/distributed/checker/FormulaVerificator.java:103-113 | processUntil keeps every cached node, only grows the EU labels, and leaves the other formulas alone |
| Verificator.ProcessUntilFacts | src/cz/muni/fi/distributed/checker/FormulaVerificator.java:103-113 | after processUntil every ψ node holds its ψ colours, each EU label lies within old label + φ + ψ colours, and jobs are only appended |
| Verificator.ProcessUntilFromLabels | src/cz/muni/fi/distributed/checker/FormulaVerificator.java:103-113 | once ψ is labelled, every colour processUntil adds is a φ or ψ colour of the node |
| Verificator.ProcessUntilCoversTarget | src/cz/muni/fi/distributed/checker/FormulaVerificator.java:103-113 | every cached node ends with all of its ψ colours in its EU label |
| Verificator.UntilSeeds | src/cz/muni/fi/distributed/checker/FormulaVerificator.java:106-112 | the walk over the ψ nodes only grows the EU labels and keeps the other formulas |
| Verificator.UntilSeedsFacts | src/cz/muni/fi/distributed/checker/FormulaVerificator.java:106-112 | after the walk over the ψ nodes each seed holds its colours, the labels gain only φ and seed colours, and jobs are only appended |
| Verificator.SeedNext | src/cz/muni/fi/distributed/checker/FormulaVerificator.java:108-111 | starting the recursion at one ψ node keeps the cache and the other formulas and only grows the EU labels |
| Verificator.SeedNextFacts | src/cz/muni/fi/distributed/checker/FormulaVerificator.java:108-111 | starting at one ψ node saturates it, leaves φ untouched and bounds the growth by φ colours and the seed's own |
| Verificator.Until | src/cz/muni/fi/distributed/checker/FormulaVerificator.java:116-135 | the backward recursion terminates and only grows the EU labels |
| Verificator.UntilFacts | src/cz/muni/fi/distributed/checker/FormulaVerificator.java:116-135 | after the recursion each owned predecessor holds its pushed colours (edge ∩ φ), each foreign one has its job, added colours are φ colours, and jobs are only appended |
| Verificator.UntilPreds | src/cz/muni/fi/distributed/checker/FormulaVerificator.java:120-134 | the loop over predecessors keeps the other formulas and only grows the EU labels |
| Verificator.UntilPredsFacts | src/cz/muni/fi/distributed/checker/FormulaVerificator.java:120-134 | after the loop over predecessors every owned entry is saturated and every foreign entry has its job |
| Verificator.UntilPush | src/cz/muni/fi/distributed/checker/FormulaVerificator.java:124-130 | pushing new colours into an owned predecessor and recursing from it only grows the EU labels |
| Verificator.UntilPushFacts | src/cz/muni/fi/distributed/checker/FormulaVerificator.java:124-130 | after a push and its recursion the whole remaining predecessor list is saturated or dispatched |
| Verificator.GainShrinks | src/cz/muni/fi/distributed/checker/FormulaVerificator.java:126 | recursing only when the predecessor is not yet enclosed strictly shrinks the colours still missing, so the recursion ends |
| Verificator.MissingShrinksStrictly | src/cz/muni/fi/distributed/checker/FormulaVerificator.java:126 | a label that gains one colour strictly shrinks the set of colours still missing |
| Verificator.ProcessNegation | src/cz/muni/fi/distributed/checker/FormulaVerificator.java:35-44 | negation keeps the cache and the outbox and changes only labels of the negation |
| Verificator.NegationNodeLabel | src/cz/muni/fi/distributed/checker/FormulaVerificator.java:37-43 | a node gains the corrected full parameter range (one dimension per parameter) minus its operand colours, and nothing when that is empty |
| Verificator.NegationExcludesOperand | src/cz/muni/fi/distributed/checker/FormulaVerificator.java:35-44 | every valuation the negation holds lies in the parameter range and not in the operand |
| Verificator.NegationExactForOneParameter | src/cz/muni/fi/distributed/checker/FormulaVerificator.java:35-44 | with one parameter a valuation lies in the negation if and only if it lies in the range and not in the operand |
| Verificator.Complement | src/cz/muni/fi/distributed/checker/FormulaVerificator.java:38-39 | the full parameter range less the operand colours has one dimension per parameter; its contents are stated by NegationNodeLabel |
| Verificator.NegationNode | src/cz/muni/fi/distributed/checker/FormulaVerificator.java:37-43 | one node of the loop keeps its coordinates, owner and label widths; the label it gains is stated by NegationNodeLabel |
| Verificator.NegationNodeAsWritten | src/cz/muni/fi/distributed/checker/FormulaVerificator.java:37-43 | with `getFullParamRange` as written, one node throws an index error exactly when the model's variable and parameter counts differ, and otherwise is the corrected NegationNode |
| Verificator.ProcessNegationAsWritten | src/cz/muni/fi/distributed/checker/FormulaVerificator.java:35-44 | the negation branch as written throws an index error exactly when the cache holds a node and the variable and parameter counts differ, and otherwise equals ProcessNegation |
| Verificator.NegationAsWrittenThrows | src/cz/muni/fi/distributed/checker/FormulaVerificator.java:35-44 | with two variables and one parameter, the corrected negation gives the one cached node the whole parameter range while the branch as written throws |
| Verificator.ProcessAnd | src/cz/muni/fi/distributed/checker/FormulaVerificator.java:53-61 | conjunction keeps the cache and the outbox and changes only labels of the conjunction |
| Verificator.AndNodeLabel | src/cz/muni/fi/distributed/checker/FormulaVerificator.java:54-60 | a node gains the intersection of its operand colours, and nothing when that is empty |
| Verificator.AndNode | src/cz/muni/fi/distributed/checker/FormulaVerificator.java:54-60 | one node of the loop keeps its coordinates, owner and label widths; the label it gains is stated by AndNodeLabel |
| Verificator.AndExact | src/cz/muni/fi/distributed/checker/FormulaVerificator.java:53-61 | a valuation lies in the conjunction if and only if it lies in both operands |
| Verificator.AndNodeAsWritten | src/cz/muni/fi/distributed/checker/FormulaVerificator.java:53-61 | the node as the loop leaves it keeps its coordinates and owner |
| Verificator.AndAsWrittenNarrowsOperand | src/cz/muni/fi/distributed/checker/FormulaVerificator.java:53-61 | the code as written stores the right label for the conjunction but overwrites the first operand's label with the intersection, because it mutates the stored set |
| Verificator.ProcessAndAsWritten | src/cz/muni/fi/distributed/checker/FormulaVerificator.java:53-61 | the as-written loop keeps the cache's nodes |
| Verificator.ProcessAndAsWrittenNarrows | src/cz/muni/fi/distributed/checker/FormulaVerificator.java:53-61 | on every node the as-written loop narrows operand 0 to the meet while agreeing with the corrected run on the conjunction |
| Verificator.AndAliasCorruptsOperand | src/cz/muni/fi/distributed/checker/FormulaVerificator.java:54-61 | concrete node: operand p with colours {1,2} and q with {1}; after the as-written AND, p reads {1} |
| DistChecker.Check | src/cz/muni/fi/DistributedModelChecker.java:27-45 | checking starts one run per operator in post-order, labels of formulas not occurring in the tree are unchanged, and only a malformed tree can fail |
| DistChecker.CheckFrom | src/cz/muni/fi/DistributedModelChecker.java:38-40 | the operands are checked in order, each before the formula |
| DistChecker.SharedOperandCheckedTwice | src/cz/muni/fi/DistributedModelChecker.java:38-40 | an operand shared by both sides of a conjunction is checked twice, because there is no memo |
| DistChecker.CheckProposition | src/cz/muni/fi/DistributedModelChecker.java:29-36 | the proposition branch keeps the cache and the outbox and only labels the proposition |
| DistChecker.PropositionLabels | src/cz/muni/fi/DistributedModelChecker.java:29-36 | a proposition is labelled with exactly the colours getAllValidNodes returns for each node |
| DistChecker.PropositionRecheckIsNoop | src/cz/muni/fi/DistributedModelChecker.java:29-36 | checking an already revealed proposition again changes no label |
| DistChecker.LabelAll | src/cz/muni/fi/DistributedModelChecker.java:32-34 | the proposition loop changes only labels of the proposition |
| DistChecker.LabelAllLabels | src/cz/muni/fi/DistributedModelChecker.java:32-34 | each returned node gains the returned colours |
| DistChecker.Primary | src/cz/muni/fi/DistributedModelChecker.java:43-44 | the checker's primary run uses task id 0 and the same graph and native searches |
| DistChecker.PrimaryReadsTheSame | src/cz/muni/fi/DistributedModelChecker.java:43-44 | switching to the primary task changes neither the dimensions nor any label |
| Listener.NewListener | src/cz/muni/fi/distributed/checker/SecondaryTaskListener.java:32-36 | a new listener has one dimension per model variable, has not started, and has no jobs |
| Listener.EncodeHeader | src/cz/muni/fi/distributed/checker/SecondaryTaskListener.java:107-121 | the command buffer has 3·dims+3 words and starts with CREATE; it fails with an index error exactly when coordinates or colours have too few dimensions |
| Listener.DecodeHeader | src/cz/muni/fi/distributed/checker/SecondaryTaskListener.java:45-55 | decoding a command reads dims destination coordinates and dims lengths |
| Listener.HeaderRoundTrip | src/cz/muni/fi/distributed/checker/SecondaryTaskListener.java:107-121 | decoding the sent header returns the destination, the lengths, the sender and the parent task |
| Listener.Endpoints | src/cz/muni/fi/distributed/checker/SecondaryTaskListener.java:114-120 | the data message lists each range's lower then upper endpoint |
| Listener.Payload | src/cz/muni/fi/distributed/checker/SecondaryTaskListener.java:113-121 | the data message of the first n dimensions, one endpoint list per dimension; see PayloadSize and WireRoundTrip for its length and what it decodes to |
| Listener.Lengths | src/cz/muni/fi/distributed/checker/SecondaryTaskListener.java:114-120 | the length field of each dimension is twice its number of ranges |
| Listener.PayloadSize | src/cz/muni/fi/distributed/checker/SecondaryTaskListener.java:56 | the data buffer the listener allocates from the lengths is exactly as long as the data sent |
| Listener.EndpointsPairs | src/cz/muni/fi/distributed/checker/SecondaryTaskListener.java:114-121 | a value lies between some pair of sent endpoints if and only if it lies inside one of the ranges |
| Listener.WireRoundTrip | src/cz/muni/fi/distributed/checker/SecondaryTaskListener.java:114-121 | decoding dimension j of the sent buffers yields exactly the values inside the sender's ranges of dimension j |
| Listener.SumInts | src/cz/muni/fi/distributed/checker/SecondaryTaskListener.java:78-84 | the sum of the lengths is the true sum wrapped to 32 bits, and the true sum when no prefix overflows |
| Listener.Execute | src/cz/muni/fi/distributed/checker/SecondaryTaskListener.java:89-96 | starting succeeds exactly once and otherwise throws IllegalState |
| Listener.ExecuteTwiceFails | src/cz/muni/fi/distributed/checker/SecondaryTaskListener.java:89-96 | a second start throws IllegalState |
| Listener.AddPending | src/cz/muni/fi/distributed/checker/SecondaryTaskListener.java:126-129 | dispatching raises the pending count of the parent task by one and changes no other count |
| Listener.DispatchNewTask | src/cz/muni/fi/distributed/checker/SecondaryTaskListener.java:106-131 | a dispatched job is recorded as pending, goes to its destination, and carries a header that decodes to its content and a payload of the announced size |
| Listener.OnLocalTaskFinished | src/cz/muni/fi/distributed/checker/SecondaryTaskListener.java:150-159 | a finished task with outstanding jobs is parked; otherwise it is completed at once; the running count drops by one |
| Listener.OnRemoteTaskFinished | src/cz/muni/fi/distributed/checker/SecondaryTaskListener.java:162-177 | a completion notice for an unknown task throws IllegalState; the last notice removes the entry and completes the parked task; earlier ones decrement |
| Listener.DispatchThenFinishRestores | src/cz/muni/fi/distributed/checker/SecondaryTaskListener.java:126-177 | a dispatch followed by its completion notice restores the pending counts |
| Listener.ParkedTaskAnnouncedByLastJob | src/cz/muni/fi/distributed/checker/SecondaryTaskListener.java:150-177 | a task parked with one outstanding job is completed when that job's notice arrives |
| Listener.FinishBuffer | src/cz/muni/fi/distributed/checker/SecondaryTaskListener.java:72-76 | the stop command is a full-size buffer starting with FINISH |
| Listener.ReadInbox | src/cz/muni/fi/distributed/checker/SecondaryTaskListener.java:43-70 | the loop reads commands up to the first stop command or the first exception; every started job has one coordinate and one colour dimension per model variable, and there are at least as many destination lookups as started jobs |
| Listener.DecodeColors | src/cz/muni/fi/distributed/checker/SecondaryTaskListener.java:56-61 | a job's colours either have one dimension per length field or fail with NegativeArraySize, IndexOutOfBounds or IllegalArgument |
| Listener.ReceiveColors | src/cz/muni/fi/distributed/checker/SecondaryTaskListener.java:56-61 | allocating the array from the 32-bit sum of the lengths and decoding it gives exactly the colours DecodeColors describes |
| Listener.Handle | src/cz/muni/fi/distributed/checker/SecondaryTaskListener.java:45-67 | one command either stops the loop (stop command or exception, with the outcome recorded) or leaves the outcome of the rest to the remaining commands, and starts at most one job |
| Listener.Run | src/cz/muni/fi/distributed/checker/SecondaryTaskListener.java:43-70 | the receive loop's outcome is ReadInbox's: the started jobs in order, each counted as running, every job's destination node cached, and the exception that ended the thread |
| Listener.LookUpAll | src/cz/muni/fi/distributed/checker/SecondaryTaskListener.java:54 | the destination lookups cache exactly the destinations in addition to the old cache |
| Listener.DecodeSentColors | src/cz/muni/fi/distributed/checker/SecondaryTaskListener.java:56-61 | the data a sender writes for its ranges decodes to the values strictly inside them, and throws IllegalArgument exactly when some range is empty or reversed |
| Listener.DispatchedJobReceived | src/cz/muni/fi/distributed/checker/SecondaryTaskListener.java:43-70 | a dispatched job followed by the stop command is received as one destination lookup and, with valid ranges, exactly one started job carrying the sender, parent task, destination and the interiors of the ranges; otherwise the thread dies with IllegalArgument |
| Listener.EndpointsLost | src/cz/muni/fi/model/TreeColorSet.java:49-61 | a range [0, 1] sent over the wire arrives as the open range: of 0, 0.5 and 1 only 0.5 remains |
| Listener.EndpointsIncreasing | src/cz/muni/fi/distributed/checker/SecondaryTaskListener.java:114-120 | the endpoint pairs of a list of ranges are all increasing if and only if every range's lower end lies below its upper end |
| Termination.NewTerminator | src/cz/muni/fi/distributed/checker/Terminator.java:21-25 | every rank of the communicator starts active |
| Termination.Execute | src/cz/muni/fi/distributed/checker/Terminator.java:76-83 | starting succeeds exactly once |
| Termination.ExecuteTwiceFails | src/cz/muni/fi/distributed/checker/Terminator.java:76-83 | a second start throws IllegalState |
| Termination.TerminationMessages | src/cz/muni/fi/distributed/checker/Terminator.java:61-71 | a finished rank sends one notice to every rank, itself included |
| Termination.NoticeReachesEveryRank | src/cz/muni/fi/distributed/checker/Terminator.java:65-68 | every rank receives the notice of every finished rank |
| Termination.CompletedMessage | src/cz/muni/fi/distributed/checker/Terminator.java:47-55 | a completion notice goes back to the job's source and names its parent task |
| Termination.Receive | src/cz/muni/fi/distributed/checker/Terminator.java:37-42 | a rank notice lowers the active count; a completion notice goes to the listener, failing as it does; other tags are ignored |
| Termination.Run | src/cz/muni/fi/distributed/checker/Terminator.java:31-45 | the loop stops reading only when no rank is active and no job is outstanding |
| Termination.PrimaryOnly | src/cz/muni/fi/distributed/checker/Terminator.java:31-45 | with only rank notices arriving, each lowers the active count, and the loop reads exactly as many as there are ranks |
| Termination.AllRanksAnnounce | src/cz/muni/fi/distributed/checker/Terminator.java:31-45 | when every rank announces itself and no job is outstanding, the loop ends after reading every notice |
| Termination.JobCompletionRestores | src/cz/muni/fi/distributed/checker/Terminator.java:37-42 | the completion notice of a dispatched job restores the listener's pending counts |
| Termination.StrayNoticeFails | src/cz/muni/fi/distributed/checker/Terminator.java:41 | a completion notice for a task with no outstanding job throws IllegalState |
| DistNode.NewNode | src/cz/muni/fi/distributed/graph/Node.java:25-29 | a new node has its coordinates and owner and no labels or successors |
| DistNode.GetValidColors | src/cz/muni/fi/distributed/graph/Node.java:55-61 | an unlabelled formula reads as the empty colour set of the model's dimension |
| DistNode.AddFormula | src/cz/muni/fi/distributed/graph/Node.java:63-69 | a new label is the added colours as they are; an existing label keeps its dimension and each dimension gains the added colours; nothing else changes |
| DistNode.TryAddFormula | src/cz/muni/fi/distributed/graph/Node.java:63-69 | adding colours throws an index error exactly when the label exists and the colours have fewer dimensions than it |
| DistNode.AddEnclosedIsNoop | src/cz/muni/fi/distributed/graph/Node.java:63-69 | adding colours the label already encloses changes nothing |
| DistNode.AddFormulaTwice | src/cz/muni/fi/distributed/graph/Node.java:63-69 | two additions equal one addition of the union |
| DistNode.AddFormulaIdempotent | src/cz/muni/fi/distributed/graph/Node.java:63-69 | adding the same colours twice equals adding them once |
| DistNode.AddSuccessor | src/cz/muni/fi/distributed/graph/Node.java:71-77 | a successor edge is created or its colours are unioned, and other edges and labels are unchanged |
| DistNode.HashCode | src/cz/muni/fi/distributed/graph/Node.java:79-91 | the hash is a 32-bit int |
| DistNode.EqualNodesEqualHash | src/cz/muni/fi/distributed/graph/Node.java:79-91 | equal nodes have equal hashes |
| DistNode.UnequalNodesMayShareHash | src/cz/muni/fi/distributed/graph/Node.java:79-91 | nodes [0,31] and [1,0] differ yet share their hash |
| NodeFactory.GetNodeByHash | src/cz/muni/fi/distributed/graph/NodeFactory.java:27-36 | the cache as written is keyed by the coordinate hash and returns whatever node holds that hash |
| NodeFactory.HashCacheReturnsWrongNode | src/cz/muni/fi/distributed/graph/NodeFactory.java:27-36 | after caching [0,31], asking for [1,0] returns the node at [0,31] |
| NodeFactory.EmptyFactory | src/cz/muni/fi/distributed/graph/NodeFactory.java:20-25 | a new factory has an empty cache |
| NodeFactory.GetNode | src/cz/muni/fi/distributed/graph/NodeFactory.java:27-36 | getNode returns the cached node at exactly these coordinates, creating and caching a bare one when none exists |
| NodeFactory.GetNodeIdempotent | src/cz/muni/fi/distributed/graph/NodeFactory.java:27-36 | asking twice for the same coordinates returns the same node and cache |
| NodeFactory.RegisterAll | src/cz/muni/fi/distributed/graph/NodeFactory.java:48-57 | registering the nodes of a search caches exactly them in addition to the old cache, keeping the cached nodes |
| NodeFactory.CachedValid | src/cz/muni/fi/distributed/graph/NodeFactory.java:59-66 | served from the cache, every returned node is cached and returned with its non-empty label |
| NodeFactory.CachedValidComplete | src/cz/muni/fi/distributed/graph/NodeFactory.java:59-66 | every cached node with a non-empty label is returned |
| NodeFactory.CachedValidDistinct | src/cz/muni/fi/distributed/graph/NodeFactory.java:59-66 | no node is returned twice |
| NodeFactory.GetAllValidNodes | src/cz/muni/fi/distributed/graph/NodeFactory.java:46-69 | the first query of a float proposition returns the native search's nodes and caches them; every later query returns exactly the cached nodes with non-empty labels |
| NodeFactory.RevealedOnce | src/cz/muni/fi/distributed/graph/NodeFactory.java:48-57 | a proposition is revealed once; a repeated query leaves the factory unchanged and reads the cache |
| DistGraph.NewGraph | src/cz/muni/fi/distributed/graph/Graph.java:19-24 | a graph is built exactly when the partitioner is, with its model and rank |
| DistGraph.IsMyNode | src/cz/muni/fi/distributed/graph/Graph.java:26-28 | a node is mine exactly when the partitioner places it at this rank, and the test fails where the partitioner does |
| DistGraph.GetLimit | src/cz/muni/fi/distributed/graph/Graph.java:30-32 | the rank's limit is the partitioner's limit for its id |
| DistGraph.IsMyNodeWithinLimit | src/cz/muni/fi/distributed/graph/Graph.java:26-32 | a node is mine if and only if its first coordinate lies in my limit, and the test succeeds exactly inside the variable's range |
| DistGraph.GetFullParamRangeAsWritten | src/cz/muni/fi/distributed/graph/Graph.java:34-42 | as written the set has one dimension per variable, filled from the parameter ranges, and fails when there are more parameters than variables |
| DistGraph.AsWrittenEmptyWithSurplusVariables | src/cz/muni/fi/distributed/graph/Graph.java:34-42 | with more variables than parameters the as-written set is empty and has the wrong dimension |
| DistGraph.SurplusExampleDiffers | src/cz/muni/fi/distributed/graph/Graph.java:34-42 | a concrete model where the as-written range is empty but the full parameter range is not |
| DistGraph.GetFullParamRange | src/cz/muni/fi/distributed/graph/Graph.java:34-42 | the full parameter range has one dimension per parameter, each being that parameter's range |
| DistGraph.FullParamRangeCorrectionAgrees | src/cz/muni/fi/distributed/graph/Graph.java:34-42 | the as-written and corrected ranges agree if and only if the model has as many variables as parameters |
| Partitioner.Create | src/cz/muni/fi/model/StateSpacePartitioner.java:16-34 | partitioning fails without a first variable or when its range is unbounded, and otherwise yields one slice per rank |
| Partitioner.WidthBounds | src/cz/muni/fi/model/StateSpacePartitioner.java:22-23 | the truncated slice width is non-negative, and all the slices together fit in the range |
| Partitioner.SliceOffsetsFit | src/cz/muni/fi/model/StateSpacePartitioner.java:22-32 | the int product of the slice width and a rank index up to the number of ranks never overflows |
| Partitioner.SlicesDisjoint | src/cz/muni/fi/model/StateSpacePartitioner.java:24-32 | no value lies in two slices |
| Partitioner.SlicesCover | src/cz/muni/fi/model/StateSpacePartitioner.java:24-32 | every value of the first variable's range lies in some slice |
| Partitioner.SlicesInside | src/cz/muni/fi/model/StateSpacePartitioner.java:24-32 | every slice lies within the range |
| Partitioner.ZeroWidthLastOwner | src/cz/muni/fi/model/StateSpacePartitioner.java:23-27 | when the range is narrower than the number of ranks, the last rank owns everything |
| Partitioner.FindSlice | src/cz/muni/fi/model/StateSpacePartitioner.java:36-49 | the search returns the first slice holding the value, and fails with IllegalState when none does |
| Partitioner.GetGraphId | src/cz/muni/fi/model/StateSpacePartitioner.java:36-49 | a node belongs to the slice holding its first coordinate; empty coordinates fail with an index error and uncovered ones with IllegalState |
| Partitioner.GetGraphIdOwner | src/cz/muni/fi/model/StateSpacePartitioner.java:36-49 | a node has an owner if and only if its first coordinate is in range, and rank i owns it if and only if slice i holds it |
| Partitioner.GetMyLimit | src/cz/muni/fi/model/StateSpacePartitioner.java:51-60 | a rank's limit replaces the first variable's range by its slice and keeps the others |
| Partitioner.GetMyLimitOwned | src/cz/muni/fi/model/StateSpacePartitioner.java:51-60 | a coordinate lies in a rank's limit if and only if that rank owns the node |
| Models.FullColorSet | src/cz/muni/fi/model/Model.java:37-43 | the full colour set has one dimension per parameter, each being that parameter's range |
| Models.FullColorSetIsGreatest | src/cz/muni/fi/model/Model.java:37-43 | every colour set within the parameter ranges lies inside the full set |
| Models.FullColorSetNonEmpty | src/cz/muni/fi/model/Model.java:37-43 | the full set is non-empty if and only if every parameter range holds a value |
| TreeColorSet.CreateEmpty | src/cz/muni/fi/model/TreeColorSet.java:13-20 | the empty set has the requested number of empty dimensions |
| TreeColorSet.CreateEmptyIsEmpty | src/cz/muni/fi/model/TreeColorSet.java:13-20 | an empty set counts as empty if and only if it has a dimension |
| TreeColorSet.Union | src/cz/muni/fi/model/TreeColorSet.java:43-47 | each of the receiver's dimensions becomes exactly the union with the argument's dimension |
| TreeColorSet.TryUnion | src/cz/muni/fi/model/TreeColorSet.java:43-47 | union throws an index error exactly when the argument has fewer dimensions than the receiver, and otherwise keeps the receiver's dimension with each dimension unioned |
| TreeColorSet.UnionValuations | src/cz/muni/fi/model/TreeColorSet.java:43-47 | every valuation of either set lies in the union |
| TreeColorSet.UnionEncloses | src/cz/muni/fi/model/TreeColorSet.java:43-47 | the union encloses both arguments |
| TreeColorSet.Intersect | src/cz/muni/fi/model/TreeColorSet.java:63-70 | each dimension becomes the intersection of the two |
| TreeColorSet.TryIntersect | src/cz/muni/fi/model/TreeColorSet.java:63-70 | intersect throws an index error exactly when the argument has fewer dimensions than the receiver, and otherwise intersects dimension by dimension |
| TreeColorSet.IntersectValuations | src/cz/muni/fi/model/TreeColorSet.java:63-70 | a valuation lies in the intersection if and only if it lies in both sets |
| TreeColorSet.Subtract | src/cz/muni/fi/model/TreeColorSet.java:72-77 | each dimension keeps exactly the values the argument lacks |
| TreeColorSet.TrySubtract | src/cz/muni/fi/model/TreeColorSet.java:72-77 | subtract throws an index error exactly when the argument has fewer dimensions than the receiver, and otherwise subtracts dimension by dimension |
| TreeColorSet.SurplusIgnored | src/cz/muni/fi/model/TreeColorSet.java:43-95 | union, intersect, subtract and encloses ignore every dimension of the argument beyond the receiver's |
| TreeColorSet.SubtractValuations | src/cz/muni/fi/model/TreeColorSet.java:72-77 | every valuation of the difference lies in the first set and not in the second |
| TreeColorSet.IsEmptyMeansNoValuation | src/cz/muni/fi/model/TreeColorSet.java:79-85 | a set is empty if and only if no valuation lies in it |
| TreeColorSet.IsEmpty | src/cz/muni/fi/model/TreeColorSet.java:79-85 | `isEmpty` is true when any dimension is empty; see IsEmptyMeansNoValuation: exactly when no valuation lies in the set |
| TreeColorSet.TryEncloses | src/cz/muni/fi/model/TreeColorSet.java:87-95 | encloses throws an index error exactly when the argument is shorter and every dimension it has is enclosed; otherwise it answers whether every receiver dimension holds the argument's |
| TreeColorSet.EnclosesMeansUnionUnchanged | src/cz/muni/fi/model/TreeColorSet.java:87-95 | a set encloses another if and only if their union is the set itself, and then it holds every valuation of the other |
| TreeColorSet.Encloses | src/cz/muni/fi/model/TreeColorSet.java:87-95 | `encloses` on an argument at least as wide; see EnclosesMeansUnionUnchanged: exactly when the union leaves the set unchanged |
| TreeColorSet.CreateFromBuffer | src/cz/muni/fi/model/TreeColorSet.java:49-61 | decoding succeeds exactly when every pair of endpoints is increasing, and then dimension j holds exactly the values inside its pairs; otherwise it throws IllegalArgument |
| TreeColorSet.ReadPairs | src/cz/muni/fi/model/TreeColorSet.java:52-59 | one dimension read from an array of any length throws an index error past its end, and on an array that holds the segment succeeds exactly when every pair is increasing, with the values between the pairs; otherwise IllegalArgument |
| TreeColorSet.FromBuffer | src/cz/muni/fi/model/TreeColorSet.java:49-61 | decoding an array of any length fails only with an index error or IllegalArgument, and a decoded set has one dimension per length field |
| TreeColorSet.FromBufferAgrees | src/cz/muni/fi/model/TreeColorSet.java:49-61 | on an array that holds every segment, decoding succeeds exactly when every pair is increasing, then dimension j holds exactly the values inside its pairs, and it fails only with IllegalArgument |
| TreeColorSet.DecodeSegment | src/cz/muni/fi/model/TreeColorSet.java:52-59 | one dimension decodes to the values between its endpoint pairs, or throws IllegalArgument on a decreasing pair |
| JavaInt.Wrap | src/cz/muni/fi/distributed/checker/SecondaryTaskListener.java:78-84 | int addition wraps to 32 bits and leaves in-range values alone |
| JavaInt.Trunc | src/cz/muni/fi/model/StateSpacePartitioner.java:22 | the double-to-int cast truncates toward zero inside the int range and saturates at MAX_INT and MIN_INT outside it |
| JavaInt.TowardZero | src/cz/muni/fi/model/StateSpacePartitioner.java:22 | rounding toward zero stays within one of the value, below it for non-negative values and above it for negative ones |
| JavaInt.HashFromIsInt32 | src/cz/muni/fi/distributed/graph/NodeFactory.java:28 | Arrays.hashCode yields a 32-bit int |
| JavaInt.ArraysHashCode | src/cz/muni/fi/distributed/graph/NodeFactory.java:28 | `Arrays.hashCode` of an int array is a 32-bit int and is 1 for the empty array; see ArraysHashCodeCollides for two arrays that share it |
| JavaInt.ArraysHashCodeCollides | src/cz/muni/fi/distributed/graph/NodeFactory.java:28 | the coordinates [0,31] and [1,0] both hash to 992 |
| IntChecker.Reach | src/cz/muni/fi/ModelChecker.java:51-67 | the traversal from the initial nodes visits a closed set of graph nodes containing them |
| IntChecker.ReachLeast | src/cz/muni/fi/ModelChecker.java:51-67 | the traversal visits only nodes that every closed set containing the initial nodes holds |
| IntChecker.CheckProposition | src/cz/muni/fi/ModelChecker.java:51-67 | a colour labels a node if and only if it did before, or the node is reachable, the proposition holds there, and the colour is a graph colour |
| IntChecker.CheckExistsNext | src/cz/muni/fi/ModelChecker.java:140-160 | a reachable node gains exactly the operand colours of its successors |
| IntChecker.CheckAnd | src/cz/muni/fi/ModelChecker.java:162-180 | a reachable node gains exactly the colours both operands hold |
| IntChecker.CheckAndAsWritten | src/cz/muni/fi/ModelChecker.java:162-180 | the in-place AND gives the conjunction the same labels as CheckAnd, but leaves each reachable node's first operand with only the colours the second operand also holds |
| IntChecker.AndAliasShrinksOperand | src/cz/muni/fi/ModelChecker.java:162-180 | concrete node: p = {1,2}, q = {1}; after the as-written AND p reads {1}, after CheckAnd it still reads {1,2} |
| IntChecker.CheckNegation | src/cz/muni/fi/ModelChecker.java:182-201 | a reachable node gains exactly the graph colours the operand lacks |
| IntChecker.NegationComplements | src/cz/muni/fi/ModelChecker.java:182-201 | a fresh negation label is the complement of the operand within the graph colours |
| IntChecker.DepthFirst | src/cz/muni/fi/ModelChecker.java:69-138 | the depth-first passes from every initial node change only the formula's labels and only grow them |
| IntChecker.Dfs | src/cz/muni/fi/ModelChecker.java:69-97 | one node of the depth-first pass, entered whether or not it is already found, marks the node found and stays inside the graph, changing only the formula's labels, only at that node and newly found nodes, and only by growing them |
| IntChecker.Roots | src/cz/muni/fi/ModelChecker.java:99-104 | the driver's loop (also 133-138) enters every remaining initial node with the shared found set, leaves all of them found, and changes only the formula's labels, only at found nodes and only by growing them |
| IntChecker.RootsSound | src/cz/muni/fi/ModelChecker.java:99-104 | started within a pre-fixpoint of the step, the loop over the initial nodes, re-entries included, adds no colour outside it |
| IntChecker.Visit | src/cz/muni/fi/ModelChecker.java:79-83 | the loop over successors leaves every remaining successor found, changing only the formula's labels, only at newly found nodes and only by growing them |
| IntChecker.AllFutureLeaf | src/cz/muni/fi/ModelChecker.java:106-132 | a node without successors gains all graph colours for AF |
| IntChecker.Fix | src/cz/muni/fi/ModelChecker.java:69-139 | the repeated sweep, for EU or AF, reaches a labelling closed under the operator's rule on the reachable nodes, only grows labels, and changes only the formula's labels there |
| IntChecker.FixLeast | src/cz/muni/fi/ModelChecker.java:69-139 | the fixpoint lies within every labelling that contains the start and is closed under the rule, so it is the least one |
| IntChecker.FixShrinks | src/cz/muni/fi/ModelChecker.java:69-139 | a sweep that is not yet stable adds a colour, so the iteration ends |
| IntChecker.CheckExistsUntil | src/cz/muni/fi/ModelChecker.java:69-104 | EU labels reachable nodes with a solution of the EU rule, only adding colours and touching nothing else |
| IntChecker.CheckExistsUntilLeast | src/cz/muni/fi/ModelChecker.java:69-104 | the EU labelling lies within every labelling closed under the EU rule that contains the old labels, so it is the least one |
| IntChecker.CheckAllFuture | src/cz/muni/fi/ModelChecker.java:106-139 | AF labels reachable nodes with a solution of the AF rule (operand colours, or colours every successor holds, with all graph colours at a leaf), only adding colours and touching nothing else |
| IntChecker.CheckAllFutureLeast | src/cz/muni/fi/ModelChecker.java:106-139 | the AF labelling lies within every labelling closed under the AF rule that contains the old labels, so it is the least one |
| IntChecker.DepthFirstAllFutureSound | src/cz/muni/fi/ModelChecker.java:106-139 | every colour the depth-first AF passes from all initial nodes add, re-entered ones included, is one the least AF solution holds |
| IntChecker.DepthFirstAllFutureMissesCycle | src/cz/muni/fi/ModelChecker.java:106-139 | on the ring 0→1→2→0 with the operand at node 1 and node 0 the only initial node, the pass leaves node 2 without AF |
| IntChecker.AllFutureFixCoversCycle | src/cz/muni/fi/ModelChecker.java:106-139 | on the same ring the fixpoint gives node 2 the colour |
| IntChecker.DepthFirstUntilSound | src/cz/muni/fi/ModelChecker.java:69-104 | every colour the depth-first EU passes from all initial nodes add, re-entered ones included, is one the least solution holds |
| IntChecker.DepthFirstUntilMissesCycle | src/cz/muni/fi/ModelChecker.java:69-104 | on graph 0→[1,2], 1→[0] with ψ at 2, φ at 0 and 1 and node 0 the only initial node, the pass leaves node 1 without EU |
| IntChecker.DepthFirstUntilReentersRoot | src/cz/muni/fi/ModelChecker.java:99-104 | on the same graph with initial nodes 0 then 1, the driver's second entry into the already found node 1 gives it EU colour 1 |
| IntChecker.CycleNodeOneAgain | src/cz/muni/fi/ModelChecker.java:69-97 | node 1 entered again after node 0 is found with colour 1 descends nowhere and takes colour 1 from node 0 on exit |
| IntChecker.CycleRootMisses | src/cz/muni/fi/ModelChecker.java:69-104 | the pass from node 0 returns with node 1 unlabelled, because node 1 finishes before ψ at node 2 reaches node 0, while node 0 itself gets colour 1 |
| IntChecker.UntilFixCoversCycle | src/cz/muni/fi/ModelChecker.java:69-104 | on the same graph CheckExistsUntil labels node 1 |
| IntChecker.Operator | src/cz/muni/fi/ModelChecker.java:24-49 | each operator changes only its own formula's labels |
| IntChecker.Check | src/cz/muni/fi/ModelChecker.java:24-49 | checking a tree changes only labels of formulas in it; it fails only with an index error, only with initial nodes, and never on a well-formed tree |
| IntChecker.ExistsNextReadsPerEdge | src/cz/muni/fi/ModelChecker.java:141-160 | EX without an operand finishes on a graph whose only node has no successor, and throws an index error once the node is its own successor |
| IntChecker.CheckFrom | src/cz/muni/fi/ModelChecker.java:24-49 | operands are checked in order before the formula |
| BoolChecker.Bfs | src/cz/muni/fi/checker/ModelChecker.java:88-103 | the breadth-first search visits a closed set containing its start |
| BoolChecker.BfsWithin | src/cz/muni/fi/checker/ModelChecker.java:88-103 | the search never leaves a closed set that holds its start |
| BoolChecker.BfsIsReach | src/cz/muni/fi/checker/ModelChecker.java:88-103 | the search visits exactly the reachable nodes |
| BoolChecker.CheckAnd | src/cz/muni/fi/checker/ModelChecker.java:88-103 | a reachable node is marked with the conjunction if and only if both operands mark it |
| BoolChecker.CheckNegation | src/cz/muni/fi/checker/ModelChecker.java:105-122 | a reachable node is marked with the negation if and only if the operand does not mark it |
| BoolChecker.CheckAllFuture | src/cz/muni/fi/checker/ModelChecker.java:44-71 | AF only adds marks to reachable nodes and leaves every node marked that holds the operand or whose successors all hold AF |
| BoolChecker.AllFutureLeast | src/cz/muni/fi/checker/ModelChecker.java:44-71 | AF marks only nodes that every set closed under the AF rule contains |
| BoolChecker.SweepLeast | src/cz/muni/fi/checker/ModelChecker.java:44-71 | one sweep marks only nodes inside every set closed under the AF rule |
| BoolChecker.Sweep | src/cz/muni/fi/checker/ModelChecker.java:48-69 | one breadth-first sweep visits exactly the nodes Bfs reaches, only adds AF marks to nodes it visits, reports a change exactly when it adds one, and after a sweep without change every due node is marked |
| BoolChecker.ExistsNextAsWritten | src/cz/muni/fi/checker/ModelChecker.java:73-86 | the recursion as written only adds marks of the formula when it returns |
| BoolChecker.Predecessors | src/cz/muni/fi/checker/ModelChecker.java:83-85 | the recursion into each predecessor only adds marks of the formula when it returns |
| BoolChecker.SelfLoopNeverReturns | src/cz/muni/fi/checker/ModelChecker.java:73-86 | on a node that is its own predecessor the recursion never returns |
| BoolChecker.AsWrittenMarks | src/cz/muni/fi/checker/ModelChecker.java:73-86 | when the recursion returns, it has marked exactly the backward-reachable nodes with a successor marked by the operand |
| BoolChecker.CheckExistsNext | src/cz/muni/fi/checker/ModelChecker.java:73-86 | EX marks exactly the nodes backward-reachable from the initial node with a successor holding the operand |
| BoolChecker.AsWrittenAgrees | src/cz/muni/fi/checker/ModelChecker.java:73-86 | whenever the as-written recursion returns, it agrees with the corrected EX |
| BoolChecker.Check | src/cz/muni/fi/checker/ModelChecker.java:23-42 | checking a tree changes only marks of formulas in it, fails only with an index error, and never on a well-formed tree |
| BoolChecker.ShortOperator | src/cz/muni/fi/checker/ModelChecker.java:44-122 | an operator missing an operand fails only with an index error, and otherwise changes only its own marks |
| BoolChecker.ShortSweep | src/cz/muni/fi/checker/ModelChecker.java:44-71 | an AF sweep without an operand either fails with an index error or agrees with the sweep for every operand, since it never reads one |
| BoolChecker.CheckAllFutureShort | src/cz/muni/fi/checker/ModelChecker.java:44-71 | AF without an operand either fails with an index error or agrees with AF for every operand |
| BoolChecker.ShortOperandsReadLazily | src/cz/muni/fi/checker/ModelChecker.java:44-103 | on one node without successors, AND with one unmarked operand and AF with none both finish normally, AF marking the node |
| BoolChecker.CheckFrom | src/cz/muni/fi/checker/ModelChecker.java:23-42 | operands are checked in order before the formula |
| Pattern.VariableIndex | Frontend/src/main/java/cz/muni/fi/frontend/PatternMain.java:192 | a variable is found at its first position, and an unknown name throws IllegalArgument |
| Pattern.CheckProperty | Frontend/src/main/java/cz/muni/fi/frontend/PatternMain.java:183-218 | see CheckPropertyMeaning: succeeds exactly on supported formulas, with a colour in the result exactly when the pattern holds for it |
| Pattern.Target | Frontend/src/main/java/cz/muni/fi/frontend/PatternMain.java:193-194 | the neighbour across the facet, or none at the border; see CheckPropertyMeaning |
| Pattern.EdgeColours | Frontend/src/main/java/cz/muni/fi/frontend/PatternMain.java:196-197 | the colours of the edge in the requested direction, none for an absent edge; see CheckPropertyMeaning |
| Pattern.CheckPropertyMeaning | Frontend/src/main/java/cz/muni/fi/frontend/PatternMain.java:183-218 | the pattern check succeeds exactly on supported formulas, and a colour is returned if and only if the pattern holds for it at the node |
| Pattern.CheckPropertyBounded | Frontend/src/main/java/cz/muni/fi/frontend/PatternMain.java:183-218 | the result lies within the full colour set and the node's edge colours |
| Pattern.DoubleNegation | Frontend/src/main/java/cz/muni/fi/frontend/PatternMain.java:183-218 | a double negation yields the operand's colours within the full set |
| Pattern.DeMorgan | Frontend/src/main/java/cz/muni/fi/frontend/PatternMain.java:183-218 | the negated conjunction yields the same colours as the disjunction of negations |
| Pattern.Collect | Frontend/src/main/java/cz/muni/fi/frontend/PatternMain.java:115-127 | collecting succeeds if and only if every node checks, and records exactly the nodes with a non-empty result |
| Pattern.CollectStep | Frontend/src/main/java/cz/muni/fi/frontend/PatternMain.java:115-127 | one more node keeps the record exact |
| Pattern.CollectStepViews | Frontend/src/main/java/cz/muni/fi/frontend/PatternMain.java:115-127 | one more node keeps every checked node recorded with its result |
| Pattern.CollectStepKeys | Frontend/src/main/java/cz/muni/fi/frontend/PatternMain.java:127 | only checked nodes are keys of the record |
| OdeFormula.TransformSound | Frontend/src/main/java/cz/muni/fi/frontend/ODEMain.java:118-181 | the rewrite fails with IllegalState exactly on a negated atom, yields only non-strict comparisons, and only weakens the constraint |
| OdeFormula.Transform | Frontend/src/main/java/cz/muni/fi/frontend/ODEMain.java:118-181 | see TransformSound: fails exactly on a negated atom, yields non-strict comparisons, and only weakens |
| OdeFormula.Negated | Frontend/src/main/java/cz/muni/fi/frontend/ODEMain.java:119-156 | see NegatedSound: fails exactly on an atom, and holds wherever the inner expression fails |
| OdeFormula.NegatedSound | Frontend/src/main/java/cz/muni/fi/frontend/ODEMain.java:119-156 | pushing a negation inwards fails exactly on an atom, and the result holds wherever the inner expression fails |
| OdeFormula.TransformAll | Frontend/src/main/java/cz/muni/fi/frontend/ODEMain.java:133-146 | the arguments of a conjunction or disjunction are rewritten one for one |
| OdeFormula.TransformAllSound | Frontend/src/main/java/cz/muni/fi/frontend/ODEMain.java:133-146 | each rewritten argument is relaxed and weaker than its original (or than its negation) |
| BoolNetwork.GetNode | Frontend/src/main/java/cz/muni/fi/frontend/BDDPlayground.kt:130-144 | getNode looks in the node cache, then the border nodes, by hash, and otherwise registers a new node with no formulas |
| BoolNetwork.GetNodeIdempotent | Frontend/src/main/java/cz/muni/fi/frontend/BDDPlayground.kt:130-144 | asking twice returns the same node and adapter |
| BoolNetwork.NeighbourLevels | Frontend/src/main/java/cz/muni/fi/frontend/BDDPlayground.kt:249-256 | neighbour i flips the level of species i and keeps the others |
| BoolNetwork.DistanceOne | Frontend/src/main/java/cz/muni/fi/frontend/BDDPlayground.kt:249-256 | one neighbour is returned per species, each with the hash of the flipped vector |
| BoolNetwork.NeighbourExact | Frontend/src/main/java/cz/muni/fi/frontend/BDDPlayground.kt:249-256 | without a hash collision in the caches, the neighbour is the flipped vector itself |
| BoolNetwork.EnumSpecies | Frontend/src/main/java/cz/muni/fi/frontend/BDDPlayground.kt:259-271 | the enumeration yields 2^(i+1) distinct vectors, exactly the completions of the fixed levels |
| BoolNetwork.EnumeratesAllStates | Frontend/src/main/java/cz/muni/fi/frontend/BDDPlayground.kt:259-271 | every 0/1 vector of the species is visited exactly once |
| BoolNetwork.AddFormula | Frontend/src/main/java/cz/muni/fi/frontend/BDDPlayground.kt:210-216 | adding colours unions them into the node's formula and reports a change exactly when the stored colours were empty or some added colour was not stored yet; an unknown node throws a null-pointer error |
| BoolNetwork.UnionChanged | Frontend/src/main/java/cz/muni/fi/frontend/BDDPlayground.kt:210-216 | the flag `addFormula` returns from `BDDColorSet.union` (lines 34-51 of that class): `union` reports a change exactly when the receiver was empty or the argument holds a colour the receiver lacks |
| BoolNetwork.AddFormulaTwice | Frontend/src/main/java/cz/muni/fi/frontend/BDDPlayground.kt:210-216 | adding the same colours again leaves the adapter unchanged and reports a change only when the stored colours are empty |
| BoolNetwork.EmptyAddReportsChange | Frontend/src/main/java/cz/muni/fi/frontend/BDDPlayground.kt:210-216 | adding no colours to a formula the node lacks stores an empty entry and reports a change |
| BoolNetwork.ValidColorsFor | Frontend/src/main/java/cz/muni/fi/frontend/BDDPlayground.kt:220-234 | tautology has all colours, contradiction none, and other formulas read the stored colours |
| BoolNetwork.InitialNodes | Frontend/src/main/java/cz/muni/fi/frontend/BDDPlayground.kt:169-192 | the initial nodes of a formula are exactly the cached nodes with non-empty colours for it |
| BoolNetwork.InvertNodeSet | Frontend/src/main/java/cz/muni/fi/frontend/BDDPlayground.kt:195-208 | inversion gives each cached node the remaining colours and drops nodes with none |
| BoolNetwork.InvertTwice | Frontend/src/main/java/cz/muni/fi/frontend/BDDPlayground.kt:195-208 | inverting twice restores each node's colours within the full set |
| BoolNetwork.GetLevel | Frontend/src/main/java/cz/muni/fi/frontend/BDDPlayground.kt:240-247 | a level is read inside the vector and throws an index error outside it |
| BoolNetwork.IndexOf | Frontend/src/main/java/cz/muni/fi/frontend/BDDPlayground.kt:240-247 | the index is the first position of the species name, or -1 when absent |
| BoolNetwork.Reveal | Frontend/src/main/java/cz/muni/fi/frontend/BDDPlayground.kt:240-247 | revealing a proposition gives every cached node where it holds all colours, and fails if some node lacks the species |
| BoolNetwork.RevealIfNew | Frontend/src/main/java/cz/muni/fi/frontend/BDDPlayground.kt:240-247 | a proposition is revealed only once |
| BoolNetwork.ContextParts | Frontend/src/main/java/cz/muni/fi/frontend/BDDPlayground.kt:299-301 | the context lists each species with its level |
| BoolNetwork.ToContext | Frontend/src/main/java/cz/muni/fi/frontend/BDDPlayground.kt:299-301 | the species-level entries joined by commas; see ContextReadBack: splitting at commas gives them back |
| BoolNetwork.Split | Frontend/src/main/java/cz/muni/fi/frontend/BDDPlayground.kt:299-301 | splitting yields at least one part; see SplitJoin: it inverts the comma join |
| BoolNetwork.ContextReadBack | Frontend/src/main/java/cz/muni/fi/frontend/BDDPlayground.kt:299-301 | splitting the context string at commas gives back the species-level entries |
| BoolNetwork.SplitJoin | Frontend/src/main/java/cz/muni/fi/frontend/BDDPlayground.kt:299-301 | joining parts that do not contain the separator and splitting again gives them back |

## Left out

- MPI, threads and `synchronized`. Sends become an outbox, and receives become a sequence of
  incoming messages. There is no interleaving, no blocking and no message reordering.
- `SecondaryTask` ids come from `System.nanoTime`. The model takes the task id as a parameter.
- The JNI predecessor and initial-node searches are native code. They are a `Context`
  parameter holding the edges with their colours and the initial nodes. `WellFormedContext`
  assumes every predecessor the search reports lies in some rank's slice, so the
  IllegalState of `StateSpacePartitioner.java:48` is not reached from `processNext` or
  `processUntil`; the native search keeps the first variable within the range the slices
  cover (`Partitioner.SlicesCover`).
- `FloatProposition.evaluate` is a parameter.
- Guava `RangeSet<Double>` and IEEE doubles: a dimension is the finite set of parameter
  values it holds. Range coalescing, infinities and rounding are not modelled.
- `createCopy` and the defensive copies: all values are immutable, so a copy is the value itself.
  Where the source does not copy, the aliasing is modelled explicitly: the distributed AND
  (`Verificator.ProcessAndAsWritten`) and the sequential AND (`IntChecker.CheckAndAsWritten`)
  both intersect the first operand's stored set in place.
- `hasIncompleteRequests` has no row of its own. It is folded into `Termination.Running`,
  the loop condition that reads it.
- The command-line drivers (`main` methods, model parsing, output) and `processPatterns`.
  `PatternMain.java:117` computes `counter % (initial.size() / 100)`, which divides by zero
  whenever a rank holds between 1 and 99 initial nodes.
- `toBDD`, `predecessorsFor` and `successorsFor` of the playground: they call the BDD
  library, which is not part of this model.
- `cz.muni.fi.graph.*` is not part of this model. The sequential checkers read an abstract
  graph of successor lists, initial nodes and colours. The source keeps successors in hash
  sets, so its visiting order is unspecified; the model takes the order of each list as given.
- BoolChecker.ExistsNextAsWritten: takes a recursion `fuel` bound, because the code as
  written need not terminate. `None` means the fuel ran out, which the source would show as
  a stack overflow.
- BoolNetwork.NeighbourExact: needs a premise that no cached node collides in hash with the
  neighbour. Whether 0/1 vectors can collide is left open.
- Verificator.ReceiveFormula: returns an index error for an exists-until job with fewer than
  two operands. The source reads only operand 0 on that path, and `processFormula` already
  rejects such formulas before any job exists.
- Verificator.ReceiveMisfit: when an exists-until job with fewer dimensions than the model
  stores its meet as a new label, the source goes on to `processUntilRecursive` with that
  short set. The model stops after storing it; the native predecessor search it would call
  next is a parameter built for sets of the model's dimension.
- TreeColorSet.Union, TreeColorSet.Intersect, TreeColorSet.Subtract: require an argument with
  at least the receiver's dimensions. The index error the source throws otherwise is modelled
  by `TryUnion`, `TryIntersect` and `TrySubtract`, which the received-job path uses.
- DistNode.AddFormula: requires colours with at least the existing label's dimensions. The
  index error of a shorter set is modelled by `DistNode.TryAddFormula`.
- Verificator.ReceiveUntil: is stated as labels that only grow and other formulas left alone.
  The soundness and saturation half is in `Verificator.ReceiveUntilFacts`.
- Verificator.ProcessFormula: its negation branch complements against the corrected full
  parameter range (Findings row for `Graph.java:34-42`). As written, the branch throws an
  index error at the first cached node whenever the model's variable and parameter counts
  differ; `Verificator.ProcessNegationAsWritten` states exactly when, and that it otherwise
  equals `Verificator.ProcessNegation`.
- Verificator.ProcessNegation: uses the corrected full parameter range, as the line above says.
- Verificator.NegationNodeLabel: the range the label is complemented against is the corrected
  one; with differing variable and parameter counts the source throws instead.
- Verificator.NegationExcludesOperand: with more than one parameter only the "only if"
  direction holds. The source complements dimension by dimension, which is narrower than the
  complement of the valuations. `Verificator.NegationExactForOneParameter` states the
  equivalence for one parameter. The range is the corrected one.
- Verificator.NegationExactForOneParameter: the range is the corrected one; with one
  parameter and more than one variable the source throws in `subtract` instead.
- TreeColorSet.UnionValuations: only one direction holds. A per-dimension union holds
  valuations that mix dimensions of the two sets, as in the source.
- TreeColorSet.SubtractValuations: only one direction holds. A per-dimension difference is
  narrower than the difference of the valuations, as in the source.
- Listener.Run: reads the inbox up to the first stop command or exception, as the source does.
  What arrives after that is not modelled, and an inbox without a stop command is read to its
  end instead of blocking.
- Listener.ReadInbox: assumes every command buffer has the header width and every length field
  is non-negative and even, as `dispatchNewTask` writes them. A data message whose size differs
  from the receiving array is not modelled: the data is the array's content after the receive.
- Termination.Run: a blocking receive on an empty inbox is modelled as the loop stopping
  with the messages read so far.
- `Model.variableCount` and `Model.parameterCount` are the lengths of the range lists.

## Findings

| source | as written | input that shows it | evidently intended | confidence | as-written member | corrected member |
|---|---|---|---|---|---|---|
| src/cz/muni/fi/distributed/graph/NodeFactory.java:27-36 | the node cache is keyed by `Arrays.hashCode` of the coordinates | caching [0,31], then asking for [1,0]: both hash to 992, so the node at [0,31] is returned | the cache is keyed by the coordinates themselves | not executed | NodeFactory.HashCacheReturnsWrongNode | NodeFactory.GetNode |
| src/cz/muni/fi/distributed/graph/Graph.java:34-42 | the full parameter range has one dimension per model variable | a model with two variables and one parameter, and one cached node: the as-written set has two dimensions, so at its only caller, the negation of `processFormula`, `subtract` reads a second dimension of the one-dimensional operand label and throws an index error (TreeColorSet.java:75); with more parameters than variables the set itself throws at line 39 | one dimension per parameter, as `Model.getFullColorSet` builds it | not executed | Verificator.NegationAsWrittenThrows | DistGraph.GetFullParamRange |
| src/cz/muni/fi/ModelChecker.java:69-104 | exists-until is one depth-first pass per initial node that never descends into a visited node | graph 0→[1,2], 1→[0], φ at 0 and 1, ψ at 2, node 0 the only initial node: node 1 is visited before 0 learns of 2, and is never revisited | the least fixpoint of the EU rule over the reachable nodes | not executed | IntChecker.DepthFirstUntilMissesCycle | IntChecker.CheckExistsUntil |
| src/cz/muni/fi/distributed/checker/FormulaVerificator.java:53-61 | the intersection is computed in place on the first operand's stored colour set | node with p = {1,2}, q = {1}: checking p ∧ q leaves p labelled {1} | intersect a copy and leave the operand's label alone | not executed | Verificator.AndAliasCorruptsOperand | Verificator.AndExact |
| src/cz/muni/fi/checker/ModelChecker.java:73-86 | the backward recursion for EX keeps no visited set | a node that is its own predecessor: the recursion calls itself forever | a backward search with a visited set | not executed | BoolChecker.SelfLoopNeverReturns | BoolChecker.CheckExistsNext |
| src/cz/muni/fi/ModelChecker.java:162-180 | AND intersects the first operand's stored colour set in place (`retainAll` on the set it reads) | node with p = {1,2} and q = {1}: after checking p ∧ q, p reads {1} | intersect a copy and leave the operand's label alone | not executed | IntChecker.AndAliasShrinksOperand | IntChecker.CheckAnd |
| src/cz/muni/fi/ModelChecker.java:106-139 | all-future is one depth-first pass per initial node that never descends into a visited node | ring 0→1→2→0 with the operand at node 1, node 0 the only initial node: node 2 is finished while its successor 0 is still open, and is never revisited, so node 2 misses AF although 0 gets it | the least fixpoint of the AF rule over the reachable nodes | not executed | IntChecker.DepthFirstAllFutureMissesCycle | IntChecker.CheckAllFuture |
