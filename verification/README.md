# Slurm: verified models of the Hilbert ordering, PMI-1, PMI-2, job layout and two small scanners

This project models six pieces of Slurm in Dafny and proves what they are for.

* **Hilbert ordering** (`Bits`, `Hilbert`, `HilbertCurve`, `HilbertShape`; contribs/skilling.c). Skilling's two
  in-place transforms, for every number of bits `b >= 1` and every dimension `n >= 1`, on unbounded naturals. They
  undo each other, coordinates and Hilbert integers are in bijection, and consecutive integers are neighbouring
  points, so that `d` steps in Hilbert number are at most `d` unit moves in space. The masks and
  exchanges compute exactly the curve that `HilbertShape.Curve` defines as a shape: `2^n` half-size copies of
  itself, in Gray order, mirrored and with axes swapped.
* **PMI-1** (`PmiClient`, `PmiServer`, `PmiBarrier`, `PmiReplication`, `PmiMaster`, `PmiReader`, `PmiFacts`,
  `PmiSystem`, `PmiSteps`, `PmiVisibility`, `PmiDistinct`, `PmiExamples`, `PmiFanout`, `PmiAgents`; src/api/pmi.c
  and src/api/pmi_server.c). The key-value spaces of the tasks, the master copy in srun, the barrier, the delta
  snapshots, the fan-out and the throttled sending threads. The main theorem is the exact law of a get: in every
  run, whatever the key modes of tasks and server, it returns a value if and only if the task put it itself, or
  some task committed it before a barrier from which this task returned with a record of the space. Where keys are
  put again with other values, the master copy, the snapshots and what a task reads are the overlay of the puts in
  order.
* **PMI-2** (`Decimal`, `Pmi2Wire`, `Pmi2Codec`, `Pmi2Readline`, `Pmi2Spawn`, `Pmi2SpawnRead`, `Pmi2Body`;
  contribs/pmi2 and src/plugins/mpi/pmi2/client.c). Writer and reader over fixed buffers and a descriptor that may
  move fewer bytes than asked for, or fail. Any commands written to it are read back as written under every split
  into short writes and reads, and a spawn command without semicolons is understood at the other end as it was meant.
* **Job core layout** (`JobLayout`, `HostGroups`, `JobPrint`; src/api/job_info.c). Two decoders of one
  run-length-encoded layout agree unless a run is empty, each core bit is one core of one socket of one node, and
  the printed host groups expand to the per-node values exactly when the GRES detail does not end at a particular
  kind of boundary.
* **Switch names** (`SwitchNames`; contribs/sgi/netloc_to_topology.c) and **nid lists** (`NidList`;
  contribs/cray/capmc_resume.c).

Objects that the source updates in place are classes or arrays. Each method is proved equal to a function on
values, and the theorems are about those functions. Protocols are step systems whose runs are sequences of
states; a theorem about a run holds at every state of every run.

`dafny verify dfyconfig.toml` checks everything.

## Assumptions

* A remote call between a task and srun is one step, and each task receives the snapshot of each barrier once;
  `PmiFanout` shows that the messages planned for a completed barrier reach every task exactly once.
* In the runs of `PmiSystem`, puts give each key of a space one value, as slurm/pmi.h:549-551 asks of callers;
  `PmiMaster` and `PmiReader` do without that.
* `atoi` is not given numbers beyond its range.
* A commit that would make srun write outside a flag table is not a step of those runs, because nothing is known
  after it; `PmiDistinct.CommitOverrunsIff` says exactly which commits these are.
* Ports are not zero; `PmiBarrier.CountRightIff` shows what a zero port would break.
* Names, keys and values are compared as whole strings, that is, they are shorter than the maxima.
* `xrealloc` fills with zeros, and memory allocation succeeds.
* `bit_fmt` renders different CPU sets differently.

## Where a property is false of the code

* A PMI-2 frame is sent if and only if every length is within its limit *and* the whole frame is shorter than
  the buffer (`SentIffWithinLimits`). The limits on single keys and values do not suffice
  (`SingleLimitsDoNotSuffice`), because the value loop and the final NUL are not checked against the room left.
* The slots a PMI-2 reader counts are those it fills if and only if no key contains a single semicolon
  (`ReportedCountIff`). Otherwise its search for a target reads a slot that was never filled; the writer sends such
  commands (`SurplusSlot`).
* A put makes srun clear a sent flag beyond the flag table if and only if srun allows duplicates and a list repeats
  a key that is new to a table already sent (`Server.KvsPut`, `RepeatOverruns`). A commit does so if and only if,
  besides, the task itself does not allow duplicates and has put such a key twice (`CommitOverrunsIff`). Tasks and
  srun each read the mode from their own environment, and a run reaches it (`MixedModesOverrun`).
* A get finds another task's value, committed before a barrier, only if this task had a record of the space when it
  returned from that barrier (`VisibleIff`). With a record made later, the value is never found
  (`LateRecordMisses`), although slurm/pmi.h:504-506 lets one task create a space for all. A record made before the
  first barrier misses nothing (`VisibleFromStart`). When it drops a pair, the barrier call reports failure
  (`FinishBarrier`).
* The printing cursor takes at least one node from every run after the first. It agrees with random access on every
  job of a layout if and only if, as far as there are cores, that gives each node its size (`DecodersAgreeIff`,
  `MatchWalksRight`). So it is when no empty run comes between the nodes (`NoneInsideMatches`); otherwise the first
  such run must have the size of the node after it (`FirstInsideTaken`), and if these runs have one size, all nodes
  from there on must have it (`OneSizeMatchesIff`). In the job of `EmptyRunMisleads` an allocated core is never
  printed.
* With duplicates allowed, a put replaces what is read for its key (src/api/pmi_server.c:424-425) if and only if no
  other value of the key stands behind the one overwritten (`MergeOneReplacesIff`, `RepeatedKeyHidesPut`). A space
  made by a list with distinct keys never gets there (`MergedReplaces`), and a task in duplicate mode sends no other
  lists (`CommitsAdmissible`).
* The step daemon does not undo the doubling of semicolons. It splits a body into the pairs that were written if and
  only if no value has a semicolon (`SplitsBackIff`, `SemicolonCuts`).
* A spawn command is understood as it was meant, unless it has no job and fewer than two pairs to put
  (`SpawnReadBack`): it then has fewer pairs than the daemon asks of every spawn command.
* A PMI-2 command name is copied without its terminating NUL. The check of a reply's name is decided by the name
  alone if and only if the name is not a proper prefix of the expected one (`NameCheckIff`).
* Host groups are lossless if and only if the GRES detail list does not end between two nodes that agree on cores
  and memory, the first of which has GRES (`GroupsLosslessIff`, `GresLeaks`).

## Model

| member | source | states |
|---|---|---|
| Hilbert.StepEffect | contribs/skilling.c:55-59 | one invert/exchange keeps every bit from Q upward; below Q it mirrors axis 0 or swaps axis 0 with axis i |
| Hilbert.StepInvolution | contribs/skilling.c:55-59 | doing one invert/exchange twice changes nothing |
| Hilbert.RedoUndoesUndo | contribs/skilling.c:52-60 | the level loop of AxestoTranspose reverts the level loop of TransposetoAxes, for any number of levels |
| Hilbert.UndoUndoesRedo | contribs/skilling.c:71-78 | and the other way round |
| Hilbert.FoldAllInverts | contribs/skilling.c:84-85 | the loop with doubling shifts inverts x ^ (x >> i) on b-bit words |
| Hilbert.FoldInvertsAll | contribs/skilling.c:84-85 | and x ^ (x >> i) inverts the loop |
| Hilbert.GrayEncodeInverts | contribs/skilling.c:80-88 | Gray encoding across axes reverts Gray decoding |
| Hilbert.GrayDecodeInverts | contribs/skilling.c:45-49 | Gray decoding across axes reverts Gray encoding |
| Hilbert.MutualInverses | contribs/skilling.c:37-89 | for every n, b and vector below 2^b the transforms undo each other in both orders and stay below 2^b |
| Hilbert.StepInPlace | contribs/skilling.c:57-58 | the mask arithmetic on two array elements is Step, and no other element changes |
| Hilbert.GrayDecodeInPlace | contribs/skilling.c:45-49 | the descending loop computes GrayDecode of the old contents |
| Hilbert.RedoInPlace | contribs/skilling.c:70-78 | the inverse-undo loop computes Redo of the old contents |
| Hilbert.GrayEncodeInPlace | contribs/skilling.c:80-88 | the three encoding loops compute GrayEncode of the old contents |
| Hilbert.TransposeToAxes | contribs/skilling.c:37-61 | the in-place procedure computes ToAxes, from which ToTranspose recovers the old contents when they are below 2^b, and which AxesOnCurve shows to be the point of the curve |
| Hilbert.AxesToTranspose | contribs/skilling.c:62-89 | the in-place procedure computes ToTranspose, from which ToAxes recovers the old contents when they are below 2^b; IntegerOnCurve says which number that makes |
| HilbertCurve.BitInterleave | contribs/skilling.c:109-113 | bit l of axis i is bit l*n + (n-1-i) of the Hilbert integer, which is below 2^(b*n) |
| HilbertCurve.DeinterleaveInverts | contribs/skilling.c:109-113 | the axes can be read back from the interleaved integer |
| HilbertCurve.InterleaveInverts | contribs/skilling.c:109-113 | every integer below 2^(b*n) is the interleaving of its axes |
| HilbertCurve.CoordinatesToInteger | contribs/skilling.c:108-113 | a coordinate vector's Hilbert integer is below 2^(b*n), and the transform takes it back to the vector |
| HilbertCurve.IntegerToCoordinates | contribs/skilling.c:108-122 | every integer below 2^(b*n) is the Hilbert integer of a vector below 2^b |
| HilbertCurve.GrayBit | contribs/skilling.c:45-49 | decoding across axes is h ^ (h >> 1) across the interleaved bits |
| HilbertCurve.DifferenceLevel | contribs/skilling.c:53-60 | the level that holds the one differing Gray bit turns the two vectors into neighbours at that depth |
| HilbertCurve.LevelKeepsNextTo | contribs/skilling.c:53-60 | a level with equal bits on both sides keeps neighbours neighbours |
| HilbertCurve.Locality | contribs/README:122-132 | for every n and b, consecutive Hilbert integers are points that differ on exactly one axis by exactly one |
| HilbertCurve.CloseInNumberCloseInSpace | contribs/README:125-129 | points d apart in Hilbert number are at most d unit moves apart |
| HilbertShape.PointIsCurve | contribs/skilling.c:37-61 | for every n, b and number h, the bit operations give the h-th point of the curve defined by mirroring, swapping and placing half-size copies |
| HilbertShape.AxesOnCurve | contribs/skilling.c:37-61 | for every vector of words below 2^b, TransposetoAxes gives the point whose number the words are |
| HilbertShape.IntegerOnCurve | contribs/skilling.c:62-113 | the number printed for a coordinate vector is its place on that curve, and no other number is |
| HilbertShape.LevelTurns | contribs/skilling.c:53-60 | one level mirrors axis 0 or swaps it with another, axis by axis, as the halves say |
| HilbertShape.FirstBits | contribs/skilling.c:45-60 | the first bit of axis k is the difference of bits l and l+1 of the number, where l is the place of that bit |
| HilbertShape.Ends | contribs/skilling.c:37-61 | number 0 is the origin, and the last number is the far end of axis 0 |
| Pmi2Wire.SentIffWithinLimits | contribs/pmi2/pmi2_api.c:1552-1616 | a frame is sent if and only if each length is within its limit and the frame is shorter than the buffer |
| Pmi2Wire.SingleLimitsDoNotSuffice | contribs/pmi2/pmi2_api.c:1591-1608 | keys and values within their limits can still run past the buffer |
| Pmi2Wire.RefusedForALimit | contribs/pmi2/pmi2_api.c:1552-1616 | a command that is not sent is refused for a limit that it really exceeds |
| Pmi2Wire.FrameExample | contribs/pmi2/pmi2_api.c:1552-1616 | the bytes of one frame, with its padded length and a doubled semicolon |
| Pmi2Wire.ParsedAtMostCounted | contribs/pmi2/pmi2_api.c:1409-1459 | on every buffer, well-formed or not, the pairs parsed plus the single semicolons in their keys do not exceed the pairs counted |
| Pmi2Wire.CountedExactly | contribs/pmi2/pmi2_api.c:1409-1459 | on a buffer that parses, the surplus is exactly the single semicolons in keys |
| Pmi2Wire.ReportedCountIff | contribs/pmi2/pmi2_api.c:1441-1476 | the slots counted equal the pairs stored if and only if no key has a single semicolon; otherwise the search reads an unfilled slot if and only if there is no target |
| Pmi2Wire.SurplusSlot | contribs/pmi2/pmi2_api.c:1409-1461 | a command that is sent, with a key a;b, for which two slots are counted and one is filled |
| Pmi2Wire.ValueRoundTrip | contribs/pmi2/pmi2_api.c:1261-1280 | an escaped, terminated value is read back exactly, whatever it contains |
| Pmi2Wire.BodyRoundTrip | contribs/pmi2/pmi2_api.c:1427-1476 | the text of a well-formed command parses to the bytes of its name and its pair list, with the right count |
| Pmi2Wire.TooLongRejected | contribs/pmi2/pmi2_api.c:1240-1290 | a body with a name, key or value beyond its limit is rejected |
| Pmi2Wire.NameCheckIff | contribs/pmi2/pmi2_api.c:1518 | the check of the unterminated name against an expected one does not depend on the bytes behind it if and only if the name is not a proper prefix of the expected one; with a NUL it never would |
| Pmi2Wire.FrameRoundTrip | contribs/pmi2/pmi2_api.c:1370-1476 | one frame in front of any further bytes is read back, and exactly its bytes are consumed |
| Pmi2Wire.TargetDecides | contribs/pmi2/pmi2_api.c:1460-1484 | a frame with a target is read as the caller's, another's or nobody's, as the first target in it names it, and exactly its bytes are consumed |
| Pmi2Wire.OthersPassedOver | contribs/pmi2/pmi2_api.c:1366-1484 | one call passes over frames for others and ends at the first that is not, whatever follows |
| Pmi2Wire.CutFrameFails | contribs/pmi2/pmi2_api.c:1370-1408 | a stream that ends inside a frame fails, wherever it ends |
| Pmi2Wire.NegativeHeader | contribs/pmi2/pmi2_api.c:1386-1397 | a header that asks for a negative number of bytes has its own result |
| Pmi2Wire.StreamRoundTrip | contribs/pmi2/pmi2_api.c:1370-1484 | as many calls as there are well-formed commands in a stream return them in order and consume nothing more |
| Pmi2Codec.Exchange | contribs/pmi2/pmi2_api.c:1370-1650 | any list of well-formed commands written to a descriptor is read back from it in order, under every split of the writes and reads, and leaves it empty |
| Pmi2Codec.PutValue | contribs/pmi2/pmi2_api.c:1593-1608 | the value loop writes the escaped value and its terminator, or would run past the buffer exactly when they do not fit |
| Pmi2Codec.PutPairs | contribs/pmi2/pmi2_api.c:1583-1608 | the pair loop ends with the status PairsStatus gives, and on success the buffer holds exactly the pair text after what was there |
| Pmi2Codec.WriteAll | contribs/pmi2/pmi2_api.c:1641-1650 | under every split of the writes all n bytes go out once and in order, or a write fails and a proper prefix has gone out |
| Pmi2Codec.WriteSimpleCommand | contribs/pmi2/pmi2_api.c:1536-1650 | the limits decide whether anything is sent; under every split of the writes the whole frame goes out, or a write fails and a proper prefix has gone out |
| Pmi2Codec.ReadFully | contribs/pmi2/pmi2_api.c:1373-1384 | under every split of the reads, exactly n bytes are stored and consumed, or the stream was too short or a read failed |
| Pmi2Codec.CountPass | contribs/pmi2/pmi2_api.c:1409-1427 | the counting loop computes CountPairs on any buffer |
| Pmi2Codec.ParseValue | contribs/pmi2/pmi2_api.c:1261-1276 | unescaping in place yields the value ValueAt describes and never touches a byte it has not read |
| Pmi2Codec.ParseKeyval | contribs/pmi2/pmi2_api.c:1240-1290 | parse_keyval equals KeyvalAt on the unread part of the buffer and leaves the rest unchanged |
| Pmi2Codec.ParsePairs | contribs/pmi2/pmi2_api.c:1441-1459 | the pair loop stays inside a table of the counted size and computes PairsOf |
| Pmi2Codec.ParseBuffer | contribs/pmi2/pmi2_api.c:1409-1476 | counting, first pair, remaining pairs and the search for a target over all counted slots give the result of ParseBody: a command for the caller, for another, for an unreadable target, or an unfilled slot |
| Pmi2Codec.ReadFrame | contribs/pmi2/pmi2_api.c:1370-1476 | one round: for every split into short reads the result and the unread rest are those of ReadOne, unless a read fails |
| Pmi2Codec.ReadCommand | contribs/pmi2/pmi2_api.c:1366-1484 | rounds are repeated over commands meant for others, until one names the caller's command or no target; result and unread rest are those of ReadMine, unless a read fails |
| Pmi2Codec.GetVal | contribs/pmi2/pmi2_api.c:1138-1150 | finds the first pair with the key; otherwise it gets beyond the filled slots if and only if there are more slots |
| Pmi2Readline.CutIsLine | contribs/pmi2/pmi2_util.c:48-51 | a line is a prefix of at most the given room with a newline at most at its end, cut short only by a newline or the end |
| Pmi2Readline.Reader.Readline | contribs/pmi2/pmi2_util.c:52-106 | returns the next line of buffered and unread bytes together, which leaves room for the NUL in maxlen and is shorter only at a newline or the end, and leaves exactly the rest; a read error ends the line early, with -1 if it is empty |
| Pmi2Readline.Reader.ReadLines | contribs/pmi2/pmi2_util.c:52-106 | over any number of calls sharing the buffer, the lines joined and what is pending are the whole stream, and without read errors each line is cut where its call must cut it |
| Pmi2Readline.CallsCutTheStream | contribs/pmi2/pmi2_util.c:52-106 | the lines that ReadLines is proved to return are one per call, each filling its buffer or ending in a newline or at the end, and joined are a prefix of the stream |
| Pmi2Spawn.CountPairsNeeded | contribs/pmi2/pmi2_api.c:440-450 | the number precomputed from the sizes is the number of pairs of the command |
| Pmi2Spawn.BuildSpawn | contribs/pmi2/pmi2_api.c:440-496 | every index stays in range, the table is filled completely, and it holds the command's pairs in order, which SpawnReadBack shows to be read as meant |
| Pmi2Spawn.SpawnRoundTrip | contribs/pmi2/pmi2_api.c:440-499 | every spawn command that fits is read back as built, whatever its arguments contain |
| Pmi2SpawnRead.SpawnReadBack | src/plugins/mpi/pmi2/client.c:255-434 | for every list of pairs to put and jobs whose numbers fit 32 bits, reading the command's pairs gives back exactly these, with infos if they were sent; it is rejected if and only if it has no job and fewer than two pairs to put |
| Pmi2SpawnRead.JobReadBack | src/plugins/mpi/pmi2/client.c:319-424 | command, process count, arguments and infos of one job are read back, with any number of jobs after it |
| Pmi2SpawnRead.ListReadBack | src/plugins/mpi/pmi2/client.c:298-317 | numbered keys and values are read back in order from any position on |
| Pmi2SpawnRead.ParseSpawn | src/plugins/mpi/pmi2/client.c:255-434 | on every list of pairs the loops accept and return what ReadSpawn says, with counts taken modulo 2^32 |
| Pmi2SpawnRead.ParseJob | src/plugins/mpi/pmi2/client.c:319-424 | one round of the job loop does what ReadJob says |
| Pmi2SpawnRead.ParseList | src/plugins/mpi/pmi2/client.c:298-317 | the loops over numbered keys and values do what ReadList says |
| Pmi2Body.SplitsBackIff | src/plugins/mpi/pmi2/client.c:191-253 | a list with clean keys is split as it was written if and only if no value has a semicolon |
| Pmi2Body.SemicolonCuts | src/plugins/mpi/pmi2/client.c:191-253 | an argument that is cut at its semicolon |
| Pmi2Body.SpawnArrives | src/plugins/mpi/pmi2/client.c:191-434 | the text of a spawn command without semicolons is understood as it was meant |
| Pmi2Body.ParseBody | src/plugins/mpi/pmi2/client.c:195-253 | on every text the loop returns the pairs up to the end or the first malformed one, and which it was |
| PmiClient.Client.InitKvs | src/api/pmi.c:913-934 | appends an empty record and changes no other |
| PmiClient.Client.KvsPut | src/api/pmi.c:1150-1226 | changes the first record of the name as PutRec says, keeping keys, values and states aligned; fails exactly when there is none |
| PmiClient.Client.Put | src/api/pmi.c:1135-1148 | puts locally when the lengths are within the maxima and changes nothing otherwise, with the status of each case |
| PmiClient.Client.Gather | src/api/pmi.c:1283-1291 | the swap loop permutes the entries, leaving exactly the non-global ones as a prefix in their order |
| PmiClient.Client.Commit | src/api/pmi.c:1244-1334 | every live record is so rearranged, and the message carries the non-global entries of each |
| PmiClient.CommitListsFilled | src/api/pmi.c:1280-1317 | no list of a commit is empty, and each is that of a live record |
| PmiClient.CommitKeepsGets | src/api/pmi.c:1283-1291 | a commit changes the result of no get when equal keys carry equal values |
| PmiClient.Client.DisableLocalKeys | src/api/pmi.c:2000-2011 | local entries become disabled and nothing else changes |
| PmiClient.Client.ReceiveComm | src/api/pmi.c:706-717 | merges one list pair by pair, and succeeds if and only if it is empty or its space has a record |
| PmiClient.Client.FinishBarrier | src/api/pmi.c:702-721 | merges the snapshot as Receive says, and reports success if and only if every space that carries pairs has a record |
| PmiClient.Client.KvsGet | src/api/pmi.c:1377-1418 | the first entry with the key in the first live record of the name, or which of the errors |
| PmiReader.GetAfterPut | src/api/pmi.c:1150-1226 | a get after a put returns the value put, even over an older one, unless duplicates are not looked for and the key was there |
| PmiReader.PutRecValues | src/api/pmi.c:1150-1226 | a put changes the map of its own space only, and there the value of its own key only |
| PmiReader.ReceiveAllValues | src/api/pmi.c:702-721 | a barrier overlays the map of each space with its part of the snapshot, or fills in the keys that were missing if duplicates are not looked for |
| PmiReader.ReaderHoldsLastPuts | src/api/pmi.c:679-722 | a task in duplicate mode with a new record reads, after all barriers of any run, for each key the value put last |
| PmiReader.ReaderHoldsFirstPuts | src/api/pmi.c:679-722 | with duplicate checking off at both ends, the value put first |
| PmiClient.Client.Destroy | src/api/pmi.c:1086-1109 | marks the first record of the name and no other |
| PmiServer.MergeLoop | src/api/pmi_server.c:349-386 | merges the pairs as Merged says, which MergedReplaces and MergedAppends describe, and would write beyond the flag table exactly when a new key is repeated in duplicate mode |
| PmiServer.Server.MergeNamed | src/api/pmi_server.c:349-386 | exactly the space at the index changes, as Merged says: later values replace earlier ones, or the list is appended |
| PmiServer.Server.FindByName | src/api/pmi_server.c:337-347 | the first space of the name, or the number of spaces |
| PmiServer.TakeUnsent | src/api/pmi_server.c:315-331 | copies out the unsent pairs in order and leaves every flag set |
| PmiServer.Server.KvsPut | src/api/pmi_server.c:412-458 | each list is merged into its space or becomes one, so that the run of puts is what MasterOverlaysPuts and MasterIsPuts say; a flag is written out of range exactly when some list, given those before it, repeats a new key of a sent space in duplicate mode |
| PmiServer.RepeatOverruns | src/api/pmi_server.c:354-386 | a sent space and a list with a new key twice for which that happens |
| PmiServer.Server.CommDup | src/api/pmi_server.c:301-334 | the snapshot is the unsent pairs of every space, and afterwards everything is flagged sent |
| PmiServer.Server.KvsGet | src/api/pmi_server.c:460-521 | one barrier request does what Arrive says, to which FiredAddresses and FiresWhenAllCame give the meaning, and, when it completes the barrier, takes a snapshot if there is news and resets the table |
| PmiBarrier.ArriveRefines | src/api/pmi_server.c:484-517 | with a nonzero port a request does to counter and slots what it does to a map from arrived tasks to their last addresses, including when it fires and when it is rejected |
| PmiBarrier.CountRightIff | src/api/pmi_server.c:500-517 | an accepted request keeps the count right, or hands over slots naming every task if it completes the barrier, if and only if its port is not zero |
| PmiBarrier.TableCountsTasks | src/api/pmi_server.c:484-517 | over every sequence of requests the table fires exactly when all tasks have arrived since the last firing |
| PmiBarrier.FiresWhenAllCame | src/api/pmi_server.c:484-517 | over every sequence of requests, the barrier fires at the first request by which each task has come for it since the table was empty, whatever else is asked in between |
| PmiBarrier.FiredAddresses | src/api/pmi_server.c:500-517 | over every sequence of requests, the slots handed over by a barrier that fires are, for each task, the port and host of its last request since the firing before |
| PmiReplication.SnapshotsAreMaster | src/api/pmi_server.c:125-133 | without duplicate checking, after any puts and barriers ending in a barrier, the snapshots of a space joined are its master list, and names are distinct |
| PmiReplication.SnapshotsOverlayMaster | src/api/pmi_server.c:125-133 | with duplicates allowed, the snapshots of a space overlaid give its master map, and its keys are distinct |
| PmiReplication.NotUpdatedMeansAllSent | src/api/pmi_server.c:126-133 | at any time, no update flag means nothing is unsent |
| PmiMaster.MergedReplaces | src/api/pmi_server.c:354-369 | merging a list into a space with distinct keys overlays its map, whether keys are known or not |
| PmiMaster.MergedAppends | src/api/pmi_server.c:354-383 | without duplicate checking the list is appended |
| PmiMaster.MasterOverlaysPuts | src/api/pmi_server.c:412-458 | over every run with duplicates allowed, the map of each space made with distinct keys is the overlay, in order, of all lists put under its name |
| PmiMaster.MasterIsPuts | src/api/pmi_server.c:412-458 | over every run without duplicate checking, each space is all lists put under its name, one after the other |
| PmiMaster.SnapshotsArePuts | src/api/pmi_server.c:125-133 | what the snapshots of a run that ends in a barrier carry of a space is what was put into it, as a list or as a map |
| PmiMaster.MergeOneReplacesIff | src/api/pmi_server.c:357-369 | for any table, a put is what is read afterwards if and only if no other value of its key stands behind the first |
| PmiMaster.RepeatedKeyHidesPut | src/api/pmi_server.c:357-369 | a table with a key twice for which it is not |
| PmiFacts.CommitCarries | src/api/pmi.c:1280-1317 | a commit message carries a fact if and only if some live record of its name holds it as not received from a barrier |
| PmiFacts.CommitSends | src/api/pmi.c:1280-1317 | that is, if and only if it is the task's own and the task has the space in use |
| PmiFacts.PutRecFacts | src/api/pmi.c:1150-1226 | a put adds exactly its fact, if the space has a record, and as the task's own if and only if it is local |
| PmiFacts.PutSetFacts | src/api/pmi_server.c:437-447 | after a put the server has, and will send, exactly the facts it had, or was going to send, and those of the message, even if sent before |
| PmiFacts.SnapshotCarries | src/api/pmi_server.c:301-334 | a snapshot carries exactly the facts that are to be sent |
| PmiFacts.ReceivedIff | src/api/pmi.c:702-721 | a barrier adds exactly the facts of its snapshot whose space has a record, none as the task's own |
| PmiFacts.GetIff | src/api/pmi.c:1377-1418 | a get returns a value if and only if the first record of the name is in use and holds it and it fits |
| PmiVisibility.RunInv | src/api/pmi.c:679-722 | every state of every run keeps tasks and completed barriers in step, the barrier table right, facts consistent, server and snapshots holding exactly what was committed when, and each task exactly what it put and received |
| PmiVisibility.BarrierSynchronises | slurm/pmi.h:334-347 | no task returns from a barrier before every task has entered it |
| PmiVisibility.SnapshotIff | src/api/pmi_server.c:301-334 | in every run, snapshot e carries exactly the facts committed between barriers e-1 and e |
| PmiVisibility.Visible | slurm/pmi.h:545-552 | a fact committed by any task before a barrier is what a get returns at every task that had a record of the space before returning from it and has not destroyed it |
| PmiVisibility.NothingEarly | slurm/pmi.h:545-552 | in every run, whatever a get returns was put by the task itself or committed by some task before a barrier this task has returned from |
| PmiVisibility.VisibleIff | slurm/pmi.h:545-552 | for every run, task, key and value, a get returns the value if and only if the space is in use, the value fits, and the task put it or it was committed before a barrier from which the task returned with a record of the space |
| PmiVisibility.VisibleFromStart | slurm/pmi.h:545-552 | with a record made before the first barrier: if and only if the task put it or it was committed before a barrier the task has returned from |
| PmiExamples.LateRecordMisses | src/api/pmi.c:706-717 | a run with a record made after the barrier, in which the committed value is not found |
| PmiVisibility.CommitInvisible | src/api/pmi.c:1283-1291 | in every run the rearrangement done by a commit changes the result of no get |
| PmiDistinct.CommitsAdmissible | src/api/pmi.c:1161-1184 | a task in duplicate mode sends lists with distinct keys in every run, whatever the modes of the others |
| PmiDistinct.CommitOverrunsIff | src/api/pmi_server.c:354-386 | in every run a commit overruns a flag table if and only if the server is in duplicate mode, the task is not, and it has twice put a key that the sent table of a space in use lacks |
| PmiExamples.MixedModesOverrun | src/api/pmi_server.c:427-430 | a run with mixed modes whose next commit overruns |
| PmiFanout.PlanPartitions | src/api/pmi_server.c:207-233 | every waiting task is reached exactly once, as a head or in one forward list, and nobody else is |
| PmiFanout.PlanProper | src/api/pmi_server.c:217-233 | forward lists are at most the fan-out long, stay on the head's host unless off-host is on, and hold the original addresses |
| PmiFanout.TakePassesNobody | src/api/pmi_server.c:217-233 | the tasks a message takes are the next waiting ones of its group |
| PmiFanout.HeadsAscend | src/api/pmi_server.c:207-236 | messages go out in the order of their heads |
| PmiFanout.HeadsKept | src/api/pmi_server.c:229-245 | a head's slot, which its message thread reads meanwhile, keeps its nonzero port and host to the end |
| PmiFanout.MessagesPerGroup | src/api/pmi_server.c:207-236 | a host with c waiting tasks costs exactly ceil(c/(fanout+1)) messages |
| PmiFanout.MessagesOnHosts | src/api/pmi_server.c:207-236 | the number of messages is the sum of these over the hosts |
| PmiFanout.MessagesOffHost | src/api/pmi_server.c:220-223 | with off-host fan-out, ceil(N/(fanout+1)) messages |
| PmiFanout.CeilDivRoundsUp | src/api/pmi_server.c:207-236 | CeilDiv is division rounded up |
| PmiFanout.FiredReachesEveryTask | src/api/pmi_server.c:508-517 | from the slots of a barrier that fires every task is reached exactly once |
| PmiFanout.FiredMessagesAddressed | src/api/pmi_server.c:207-245 | in every run the head of each message and everyone in its host table are named by the address they gave last |
| PmiFanout.Gather | src/api/pmi_server.c:217-233 | the inner loop takes the tasks Take says, copies their addresses and clears exactly their ports |
| PmiFanout.PlanMessages | src/api/pmi_server.c:207-263 | the outer loop produces the plan and leaves the slots After says |
| PmiAgents.StepSafe | src/api/pmi_server.c:238-271 | every step of agents and message threads keeps agent_cnt exact and within the limit, and released agents without running messages |
| PmiAgents.OutstandingBounded | src/api/pmi_server.c:238-242 | at every point of every run the running messages are at most agent_cnt, which is at most the limit, and equal to it when no agent is about to start one |
| PmiAgents.FreedBuffersUnread | src/api/pmi_server.c:268-293 | once an agent has freed its buffers, no message of its own is running then or later |
| PmiAgents.ReleasedMeansAllSent | src/api/pmi_server.c:207-293 | in every run an agent that has freed its buffers has started exactly the messages it had to send, and all are done |
| PmiAgents.NeverStuck | src/api/pmi_server.c:238-271 | in every run, as long as an agent has not freed its buffers, some step of an agent or a message is possible |
| JobLayout.RangesTile | src/api/job_info.c:712-734 | every core bit lies in exactly one node's range |
| JobLayout.NodeBits | src/api/job_info.c:722-736 | the bits of node r of run k are one for each core of each socket of that run, counted socket by socket from the node's first bit |
| JobLayout.EveryBitIsACore | src/api/job_info.c:712-736 | every core bit is one core of one socket of one node of one run |
| JobLayout.OneCorePerBit | src/api/job_info.c:712-736 | and of no other |
| JobPrint.DecodersAgreeIff | src/api/job_info.c:715-734 | cursor and random access agree, inside the bitmap, on every job of a layout if and only if, as far as there are cores, the walked layout gives each node of the job its size |
| JobLayout.MatchWalksRight | src/api/job_info.c:715-723 | if every node has its size the condition holds, and only then when every node has a core |
| JobLayout.NoneInsideMatches | src/api/job_info.c:715-720 | every node has its size if no empty run but the first has nodes after it |
| JobLayout.FirstInsideTaken | src/api/job_info.c:715-723 | the node after the first such run gets that run's size, so that it must be the node's own |
| JobLayout.OneSizeMatchesIff | src/api/job_info.c:715-723 | if such runs all have one size, every node has its size if and only if all nodes from the first of them on have that size |
| JobPrint.EmptyRunMisleads | src/api/job_info.c:715-734 | a job, read inside its bitmap, in which random access finds an allocated core that the cursor never reports |
| JobPrint.CursorStep | src/api/job_info.c:715-723 | advancing the cursor, over any repeat counts, lands in the run that the walked layout gives for the node |
| JobLayout.FirstBit | src/api/job_info.c:1442-1461 | the search ends and finds the node's first core bit in the expanded layout, and as many bits as its sockets have cores |
| JobLayout.CpusOnNode | src/api/job_info.c:1389-1411 | the lookup is indexing the expanded list, and 0 beyond its end |
| JobLayout.ExpandAt | src/api/job_info.c:1389-1411 | value k of a run-length list stands at the sum of the counts before it, as often as its own count |
| JobLayout.NodeCpus | src/api/job_info.c:1463-1477 | the CPUs of a node's range are the threads of the allocated cores of its sockets |
| JobLayout.CpusMembers | src/api/job_info.c:727-734 | a CPU id is set if and only if it is a thread of an allocated core |
| JobLayout.CpuBitmap | src/api/job_info.c:727-734 | the bit-setting loops compute Cpus of the range |
| JobPrint.DecodersAgree | src/api/job_info.c:705-806 | on a job of a layout walked right, for every node visited, the printed line has the node's number, its memory, its GRES if there is detail and the CPUs that random access finds |
| JobLayout.CpusOfNode | src/api/job_info.c:1429-1477 | the CPUs by random access are the threads of the allocated cores of the node's sockets |
| JobPrint.PrintGroups | src/api/job_info.c:705-806 | the loop prints the groups of exactly the nodes up to the first that ends beyond the last allocated core, each with the CPUs of its own range of the walked layout; SocketsRead says which these are |
| JobPrint.SocketsRead | src/api/job_info.c:715-736 | for every layout, the CPUs the cursor reads for a node are the threads of the allocated cores of the sockets of its walked run |
| JobPrint.SocketsPrinted | src/api/job_info.c:705-806 | for a layout walked right, the CPUs printed for a node are those of the sockets of its own run |
| JobPrint.VisitedCovers | src/api/job_info.c:788-789 | the last node visited is the one that holds the last allocated core |
| HostGroups.GroupsLosslessIff | src/api/job_info.c:742-786 | the printed groups expand to the per-node values if and only if the GRES detail does not end between two otherwise equal nodes the first of which has GRES |
| JobPrint.GresLeaks | src/api/job_info.c:742-786 | a job of two like nodes with detail for the first only, for which the groups printed do not expand to the per-node values |
| HostGroups.PrintedLines | src/api/job_info.c:742-786 | in node, CPUs and memory the expansion is always right, and in GRES where there is detail |
| HostGroups.GroupsMaximal | src/api/job_info.c:742-786 | neighbouring groups differ and none is empty |
| JobPrint.NothingOmitted | src/api/job_info.c:788-789 | every core bit up to the last allocated one lies in the range of a visited node |
| JobPrint.CoresPrinted | src/api/job_info.c:727-734 | in a printed line, a thread of a core is among the CPUs if and only if the core is allocated |
| JobPrint.EveryCorePrinted | src/api/job_info.c:705-806 | every allocated core belongs to a node that is printed, with all its threads among that node's CPUs |
| SwitchNames.Pigeonhole | contribs/sgi/netloc_to_topology.c:905-917 | c distinct candidates that are all taken need at least c table entries |
| SwitchNames.Table.MakeName | contribs/sgi/netloc_to_topology.c:905-921 | the retry loop ends after at most as many collisions as table entries, with the first free candidate |
| SwitchNames.Table.Get | contribs/sgi/netloc_to_topology.c:789-825 | returns the recorded name, skips a switch without data, or records a new name |
| SwitchNames.AnsweredIff | contribs/sgi/netloc_to_topology.c:789-921 | a lookup gives a name if and only if the switch is known or has data; a new name is the base, an s and the number of names tried before, and is entered under its switch; nothing else is entered |
| SwitchNames.Table.Find | contribs/sgi/netloc_to_topology.c:829-839 | the first entry with the id, or the number of entries |
| SwitchNames.Table.IsUnique | contribs/sgi/netloc_to_topology.c:843-857 | succeeds if and only if no entry has the name |
| SwitchNames.RunKeeps | contribs/sgi/netloc_to_topology.c:789-825 | any lookups keep ids and names pairwise distinct and earlier entries in place |
| SwitchNames.NamesIdentifySwitches | contribs/sgi/netloc_to_topology.c:789-825 | over any run two answers are the same name if and only if they are about the same id |
| NidList.ScanMeansDenotation | contribs/cray/capmc_resume.c:288-310 | for every list of zero-padded numbers and ranges the bits set are exactly the numbers denoted, a descending range standing for its ends |
| NidList.ReadNumber | contribs/cray/capmc_resume.c:293-301 | the inner loops read the number and stop where NumberAt says |
| NidList.SetRange | contribs/cray/capmc_resume.c:303 | sets exactly the bits of the range |
| NidList.NodeNamesToBits | contribs/cray/capmc_resume.c:282-311 | on every text whose numbers fit, the bitmap gains exactly the bits Scan gives |

## Left out

- PMI-1 iterators (PMI_KVS_Iter_first, PMI_KVS_Iter_next): not modelled; the code does not return each key once.
- PMI-1 without srun: commit and barrier are no-ops then and are not modelled.
- PMI-1 retries, timeouts and the delay of remote calls.
- Liveness of overlapping agents: some step is always possible (`NeverStuck`), but that a waiting thread is woken is not shown; one condition variable serves two wait conditions.
- Changing the thread limit during a run (pmi_server_max_threads).
- PMI-2 thread-id dispatch (`thrid`): what the text of a target names is an argument, and delivery to another waiting command and the debug queue are not shown.
- Pmi2Codec.ReadCommand: what follows a negative length, an unfilled slot or an unreadable target is not described, because the code does not determine it; calls interrupted by a signal are repeated by the code and are not shown.
- Pmi2Codec.ParseBuffer: the name is the bytes copied; the source puts the terminating NUL behind the value in the read buffer and not behind the copy, so what later code reads beyond those bytes is not determined.
- Pmi2Wire.BodyRoundTrip: speaks of the name's bytes for the same reason; `NameCheckIff` says when that matters.
- Pmi2Spawn.BuildSpawn: process counts are naturals; the reply to the command is not modelled.
- Pmi2SpawnRead.ParseSpawn: what the daemon does with a request it has read is not modelled.
- Pmi2Body.ParseBody: only the PMI-2 separators; the commands of PMI-1 through the same daemon are not modelled.
- Hilbert.TransposeToAxes: words are unbounded; in C the shifts stay in range for b up to 30.
- JobPrint.PrintGroups: the bitmap reaches to the end of the last node visited, because the code aborts otherwise; threads per core are an argument; the walk over absolute node numbers has no effect on the output and is dropped.
- SwitchNames.Table.Get: the network queries and the choice of the host are arguments; growing the table's memory is not shown.
- C strings of exactly the maximal length, frees and leaks.
- The remaining files: remote-call wrappers, printing, configuration, PAM and SPANK modules would only add easy members.
