# Verified models of the R2 robot stack

This project models the parts of the robot's software whose correctness is hard to see by reading, and proves what
they promise. `dafny verify dfyconfig.toml` checks all of it.

| files | part of the system |
|---|---|
| `R2Frames`, `R2Parsers`, `R2Link`, `R2Receivers`, `R2Messages` | the serial link between the ROS computer (Python) and the STM32 controller (C): frames, checksum, both receivers, typed messages |
| `VoxelTree`, `VoxelTreeFacts`, `VoxelResidual`, `VoxelOctoTree`, `VoxelMap`, `VoxelSources`, `VoxelMapManager` | FAST-LIVO's adaptive voxel octree: insertion, splitting, freezing, lookup, matching of a scan |
| `Synchroniser`, `SynchroniserFacts`, `SynchroniserStreams`, `LivMapper` | the LIVO-mode synchroniser that cuts the LiDAR and IMU streams at image times, and the time keeping of the IMU propagation |
| `ForestTours`, `ForestPlanner` | shortest paths over the forest blocks and the greedy collection tour |
| `Utf`, `UtfStreams` | the UTF-8 and UTF-16 codecs of the rapidjson copy in the LiDAR driver |
| `LivoxHandoff`, `LivoxQueue`, `LivoxRing` | the LiDAR driver's semaphore hand-off between SDK threads and publisher, its packet ring, and the ring under concurrent access |
| `VisualPoints` | observations and reference patch of a visual map point |
| `Common` | a few shared definitions |

Code that changes state in place is modelled by classes and methods (`Firmware`, `Bridge`, `OctoNode`, `Manager`,
`Mapper`, `Planner`, `LidarQueue`, `VisualPoint`); each method is proved against a function on values, and the results
over all runs are lemmas about those functions. The driver's threads are a state machine over single accesses to shared
state, and a run is any sequence of its events.

What is a parameter of every statement, because it is numerics, hardware or scheduling: the plane fit of a point set,
the gates and the density of a match, whether a point's normal has settled, the scores and the "view moved" decision of
visual points, the iteration order of hash containers and parallel loops, and all incoming data. Times, coordinates and
pixel values are real numbers. C integers of fixed width are written out where width matters: bytes, the two length
bytes, the packet counters that wrap at 2^32, 16-bit UTF-16 units.

## What does not hold as one might expect

- The two serial receivers part ways after a header that announces more than 64 bytes: the firmware drops it, the bridge
  waits for the announced payload. `FirmwareRefinesBridge` needs the condition, and `LongHeaderSplits` shows that every
  such header allows a difference.
- A packed path, detection list or block path reaches the firmware's callback intact exactly up to 7 points, 4
  detections or 32 blocks (`SurvivesExactly`), although the structures there have room for 16, 8 and 32.
- When a LiDAR stamp goes back, the clouds are cleared but not their stamps (LIVMapper.cpp:822-826);
  `LoopBackMisaligns` says exactly when the two buffers fall out of step, `LoopBackWitness` shows a run. Conservation
  (`PayloadsConserved`) counts the cleared points; capture times are conserved only for stamps in order.
- During IMU initialisation the cut base is not advanced, so a carried point is handed on with its capture time exactly
  when initialisation is over (`CarriedTimeExactly`); `CarryingMistimes` is a run in which a point captured at 1.5 is
  handed on as captured at 0.5, and from the end of initialisation on capture times are conserved
  (`CaptureTimesConserved`).
- A cut hands on every carried point, also one captured after it: `HandedByCut` says exactly when none is.
- A base before time zero means "not set": after a cut at a negative time, which needs a negative lidar stamp
  (`RunInit`), the next one starts from the stamp of the first cloud (`RunBase`, `EarlyCutForgotten`). IMU stamps that are
  not positive switch off the test for going back (`ImuOrderExactly`).
- A gap of more than 0.2 s in the IMU stream is final: the last stamp is not moved, so every later sample is dropped and
  no further cut is made (`GapIsForever`).
- Integrated time sums to the whole interval exactly under the condition of `SegmentsTelescope`.
- The root key of a point is the floor of its scaled coordinate except on exact negative multiples (`TruncatedIsFloor`),
  so containment is stated for closed cubes.
- When a point's own cell gives no match, the neighbour is chosen by comparing a scaled coordinate with metric ones; the
  cell tried is the right one for all coordinates from zero on exactly at voxel size 1 (`TriedExactly`).
- `plan_route` fails on an empty route exactly under the condition of `RouteEmptyExactly` (`DeadEnd` meets it), and gives
  up the last leg as soon as one entrance is unreachable, since an unreachable entrance has the least key.
- In the shortest-path search stale heap entries are provided for but never occur, because all steps have length one
  (`Popped`).
- At the end of a stream the UTF-8 decoder reads a NUL and accepts it (`AcceptsExactly`); `UTF8::Encode` also encodes
  surrogates, which the decoder rejects (`Encode8Exact`).
- A lidar that starts sampling after the consumer passed over its packet can leave packets stranded until the next push
  of any lidar (`LateConnectionStrands`, `NextPushWakes`), unless a signal is still to come. `StrandsExactly` and
  `ConnectExactly` say exactly when, `NoLostWakeup` for whole runs.
- A visual point can converge without a reference when its scores are no numbers, which the correlation of a patch of
  one intensity gives; `Rescore` says exactly when. With `normal_en` the next frame chooses a reference first, so nothing
  is lost (`Live`); without it the next update erases all observations (`ProcessFrame`, `LosesAll`).

## Model

| member | source | states |
|---|---|---|
| `R2Frames.XorInjective` | ws/src/r2_controller/scripts/remote_control.c:36-44 | the XOR of the checksum is injective in each operand |
| `R2Frames.LengthRoundTrip` | ws/src/r2_controller/scripts/remote_control.c:53-54 | a payload length below 65536 is recovered from its two header bytes, and they determine it |
| `R2Frames.CalcChk` | ws/src/r2_controller/scripts/remote_control.c:36-44 | the checksum loop computes command, both length bytes and every payload byte XORed together |
| `R2Frames.SendFrame` | ws/src/r2_controller/scripts/remote_control.c:46-58 | the bytes sent are the frame layout A5 5A CMD LEN_LO LEN_HI PAYLOAD CHKSUM |
| `R2Frames.FrameLayout` | ws/src/r2_controller/scripts/r2_protocol.py:154-158 | byte by byte: A5, 5A, command, length mod 256, length div 256, payload, one byte more |
| `R2Frames.XorCancels` | ws/src/r2_controller/scripts/remote_control.c:36-44 | exactly equal bytes cancel, and zero changes nothing |
| `R2Frames.FrameSumsToZero` | ws/src/r2_controller/scripts/remote_control.c:36-44 | in every frame printed, command, both length bytes, payload and checksum XOR to zero |
| `R2Frames.XorFoldDetects` | ws/src/r2_controller/scripts/remote_control.c:41-43 | altering any one payload byte alters the checksum |
| `R2Frames.ChecksumDetectsCommand` | ws/src/r2_controller/scripts/remote_control.c:38-40 | two commands with one payload have different checksums |
| `R2Parsers.FeedAppend` | ws/src/r2_controller/scripts/remote_control.c:163-190 | feeding a stream in two parts dispatches the same frames and ends in the same state as feeding it at once |
| `R2Parsers.FeedCollects` | ws/src/r2_controller/scripts/remote_control.c:173-188 | while a frame is incomplete the automaton only collects |
| `R2Parsers.FeedCompletes` | ws/src/r2_controller/scripts/remote_control.c:180-186 | the last byte of an acceptable frame ends it: dispatched iff the checksum fits, idle either way |
| `R2Parsers.CheckedExactly` | ws/src/r2_controller/scripts/remote_control.c:180-186 | a buffer as long as its header says is taken exactly when all its bytes after the sync pair XOR to zero |
| `R2Parsers.FeedTooLong` | ws/src/r2_controller/scripts/remote_control.c:177-178 | a header announcing more than 64 bytes dispatches nothing and returns to hunting |
| `R2Parsers.FeedFrame` | ws/src/r2_controller/scripts/remote_control.c:173-187 | a whole acceptable frame fed from idle dispatches exactly itself when its checksum fits, and ends idle |
| `R2Parsers.ParseAppend` | ws/src/r2_controller/scripts/serial_bridge.py:255-270 | the frames the bridge handles do not depend on how the stream is split into read chunks |
| `R2Parsers.FirmwareRefinesBridge` | ws/src/r2_controller/scripts/remote_control.c:163-190 | main result: on every stream where no recognised header announces more than 64 bytes, the byte automaton dispatches exactly the frames the buffered parser handles, and is left in the state the unread rest would put it in |
| `R2Parsers.LongHeaderSplits` | ws/src/r2_controller/scripts/serial_bridge.py:260-263 | the condition is needed: every stream with an over-long header has a prefix after which a further valid frame is dispatched by the firmware and not handled by the bridge |
| `R2Link.FeedNoise` | ws/src/r2_controller/scripts/remote_control.c:166-171 | noise without a sync pair dispatches nothing and only hunts |
| `R2Link.FirmwareDelivers` | ws/src/r2_controller/scripts/remote_control.c:163-190 | frames of at most 64 payload bytes separated by pair-free noise are dispatched once each, in order |
| `R2Link.BridgeDelivers` | ws/src/r2_controller/scripts/serial_bridge.py:255-270 | frames of any announceable length separated by pair-free noise are handled once each, in order |
| `R2Link.DeliveredIffFits` | ws/src/r2_controller/scripts/remote_control.c:178 | a printed frame is dispatched exactly when its payload is at most 64 bytes |
| `R2Link.SingleErrorRejected` | ws/src/r2_controller/scripts/remote_control.c:180-186 | one altered byte in CMD, PAYLOAD or CHKSUM: nothing is dispatched and the automaton is idle |
| `R2Link.CollectOrIdle` | ws/src/r2_controller/scripts/remote_control.c:173-188 | a collecting automaton keeps collecting or becomes idle within its 70-byte buffer, with at most one misread frame |
| `R2Link.SelfStabilises` | ws/src/r2_controller/scripts/remote_control.c:163-190 | from every reachable state, on a stream of frames whose bodies hold no sync pair, at most one misread frame is dispatched and then every frame from some index on; the frames before it all start within the buffer size |
| `R2Link.LateFramesArrive` | ws/src/r2_controller/scripts/remote_control.c:163-190 | every frame starting 70 or more bytes into the stream is dispatched, in order |
| `R2Receivers.Firmware.FeedByte` | ws/src/r2_controller/scripts/remote_control.c:163-190 | the switch over rx_sync with its buffer and index makes exactly one step of the automaton; the index stays within the 70-byte buffer (Valid) |
| `R2Receivers.Firmware.Collect` | ws/src/r2_controller/scripts/remote_control.c:173-188 | the collecting branch: length check, frame completion, checksum and dispatch |
| `R2Receivers.Bridge.ParseRx` | ws/src/r2_controller/scripts/serial_bridge.py:255-270 | the loop over rx_buffer handles the frames of Parse and leaves its rest in the buffer |
| `R2Receivers.Bridge.TakeFrame` | ws/src/r2_controller/scripts/serial_bridge.py:264-270 | one complete frame leaves the buffer and is handled iff its checksum fits |
| `R2Receivers.Bridge.Receive` | ws/src/r2_controller/scripts/serial_bridge.py:245-246 | a read chunk is appended to what was left and parsed |
| `R2Receivers.ReceiversAgree` | ws/src/r2_controller/scripts/remote_control.c:163-190 | two receivers in the states of one stream without over-long headers have handled the same frames |
| `R2Messages.FloatRoundTrip` | ws/src/r2_controller/scripts/remote_control.c:60-66 | four little-endian bytes of a float word are read back as that word |
| `R2Messages.JoinAt` | ws/src/r2_controller/scripts/r2_protocol.py:168-183 | in the packed records, record i starts at i times the record width |
| `R2Messages.PackPath` | ws/src/r2_controller/scripts/r2_protocol.py:166-170 | the loop packs count byte and points into a frame; more than 255 points cannot be packed |
| `R2Messages.PackKfs` | ws/src/r2_controller/scripts/r2_protocol.py:173-177 | the loop packs count byte and detections into a frame; more than 255 cannot be packed |
| `R2Messages.PackZoneIPath` | ws/src/r2_controller/scripts/r2_protocol.py:180-184 | the loop packs start, end, count and blocks into a frame; more than 255 cannot be packed |
| `R2Messages.PathLayout` | ws/src/r2_controller/scripts/r2_protocol.py:166-170 | a path on the wire: 02, the count, x and y of each point as four bytes each, lowest first |
| `R2Messages.KfsLayout` | ws/src/r2_controller/scripts/r2_protocol.py:173-177 | detections on the wire: 03, the count, number and x, y, z of each |
| `R2Messages.BlockLayouts` | ws/src/r2_controller/scripts/r2_protocol.py:180-184 | a block path on the wire: 05, both ends, the count, the blocks; a layout: 13, the count, block and kind of each entry |
| `R2Messages.HandlePath` | ws/src/r2_controller/scripts/remote_control.c:91-104 | what the callback gets: the count capped at 16, and the points that fit in the payload |
| `R2Messages.HandleKfs` | ws/src/r2_controller/scripts/remote_control.c:106-120 | what the callback gets: the count capped at 8, and the detections that fit in the payload |
| `R2Messages.HandleZoneIPath` | ws/src/r2_controller/scripts/remote_control.c:122-134 | what the callback gets: both ends, the count capped at 32, and the blocks that fit |
| `R2Messages.PathRead` | ws/src/r2_controller/scripts/remote_control.c:91-104 | from any payload at most 16 points are read, as far as there are bytes, each from its eight bytes |
| `R2Messages.KfsRead` | ws/src/r2_controller/scripts/remote_control.c:106-120 | from any payload at most 8 detections are read, each from its thirteen bytes |
| `R2Messages.ZoneRead` | ws/src/r2_controller/scripts/remote_control.c:122-134 | from any payload both ends and at most 32 blocks are read, as far as there are bytes |
| `R2Messages.DecodersByCommand` | ws/src/r2_controller/scripts/remote_control.c:136-145 | which decoder commands 02, 03 and 05 select; the odometry decoder is left out |
| `R2Messages.SurvivesExactly` | ws/src/r2_controller/scripts/remote_control.c:91-134 | a packed message reaches its callback unchanged exactly when it has at most 7 points, 4 detections or 32 blocks |
| `R2Messages.UplinkDelivers` | ws/src/r2_controller/scripts/remote_control.c:91-190 | messages within the limits, with pair-free noise between them, reach their callbacks with the same values, once each and in order |
| `R2Messages.SendZoneIInfo` | ws/src/r2_controller/scripts/remote_control.c:222-232 | the sender caps the count at 16 and sends that many entries |
| `R2Messages.HandleZoneInfo` | ws/src/r2_controller/scripts/serial_bridge.py:289-298 | the decoder reads the announced entries, and fails with an index error exactly when the payload is shorter |
| `R2Messages.InfoRead` | ws/src/r2_controller/scripts/serial_bridge.py:289-298 | all announced entries are read from any payload that is long enough, and exactly a shorter one fails |
| `R2Messages.InfoSurvives` | ws/src/r2_controller/scripts/serial_bridge.py:289-298 | what the sender sends is decoded to the entries it was given |
| `R2Messages.DownlinkDelivers` | ws/src/r2_controller/scripts/serial_bridge.py:255-298 | layouts of at most 16 entries, with pair-free noise between them, are delivered with the same values, once each and in order |
| `VoxelTree.ChildrenTile` | ws/src/fast_livo/src/voxel_map.cpp:201-213 | the eight child cubes cover the parent, stay inside it and overlap only on faces; the octant of a point is the one whose cube holds it |
| `VoxelTree.OctantPoints` | ws/src/fast_livo/src/voxel_map.cpp:199-217 | the points handed to a child are at most those of the parent and lie in the child's cube |
| `VoxelTree.InitInv` | ws/src/fast_livo/src/voxel_map.cpp:166-246 | initialising a node that has only collected points gives a tree that satisfies the invariant Inv, whatever splits happen |
| `VoxelTree.UpdateInv` | ws/src/fast_livo/src/voxel_map.cpp:248-319 | inserting any point of the cube keeps Inv: plane state equals the fit of the buffer without its newest points, at most five; frozen nodes hold nothing; planes are leaves; buffers are bounded and hold only points of their cube; children sit in their octants |
| `VoxelTree.BufferInv` | ws/src/fast_livo/src/voxel_map.cpp:262-268 | buffering a point keeps the plane at most five points behind the buffer |
| `VoxelTreeFacts.FindAfterInit` | ws/src/fast_livo/src/voxel_map.cpp:166-246 | after initialisation every buffered point is held by, or frozen at, the node find_correspond returns for it |
| `VoxelTreeFacts.FindAfterUpdate` | ws/src/fast_livo/src/voxel_map.cpp:248-334 | after UpdateOctoTree(p) the node find_correspond(p) returns holds p or is frozen, through every split, re-fit, loss of planarity and freeze |
| `VoxelTreeFacts.UpdateRetains` | ws/src/fast_livo/src/voxel_map.cpp:248-319 | a later update with any point keeps every inserted point on its octant path, except by freezing |
| `VoxelTreeFacts.UpdateEvolves` | ws/src/fast_livo/src/voxel_map.cpp:248-319 | one update never moves or removes a node, never undoes initialisation or a freeze, never changes a frozen plane, and never turns a split node above max_layer_ back into a plane |
| `VoxelTreeFacts.EvolvesTransitive` | ws/src/fast_livo/src/voxel_map.cpp:248-319 | these restrictions compose over successive updates |
| `VoxelTreeFacts.RunKeeps` | ws/src/fast_livo/src/voxel_map.cpp:248-334 | over every run of updates of one tree: it only evolves so, every inserted point is retained, and the newest is found |
| `VoxelTreeFacts.FreezesExactly` | ws/src/fast_livo/src/voxel_map.cpp:166-319 | one update freezes a node exactly when it initialises it to a plane with more than max_points_num_ points, makes the buffer of a plane that many, or the buffer of a bottom node more |
| `VoxelTreeFacts.RefitEverySixth` | ws/src/fast_livo/src/voxel_map.cpp:262-268 | over any run of buffered points the plane is fitted again at every sixth, to all points so far, and at no other |
| `VoxelResidual.SearchScans` | ws/src/fast_livo/src/voxel_map.cpp:742-815 | the recursion over leaves visits exactly the topmost planes, in order |
| `VoxelResidual.TopPlanesExactly` | ws/src/fast_livo/src/voxel_map.cpp:742-815 | the planes visited are exactly those with no plane above them, at whatever depth |
| `VoxelResidual.KidOrder` | ws/src/fast_livo/src/voxel_map.cpp:797-812 | octants are visited from 0 to 7, each in one piece |
| `VoxelResidual.ScanFinds` | ws/src/fast_livo/src/voxel_map.cpp:766-785 | after any list of planes: success iff one passes both gates, and the record is the first of greatest positive density |
| `VoxelResidual.ResidualIsArgmax` | ws/src/fast_livo/src/voxel_map.cpp:742-815 | build_single_residual succeeds iff some topmost plane passes both gates, and then reports the first one of maximum density |
| `VoxelResidual.FailedSearchIsClean` | ws/src/fast_livo/src/voxel_map.cpp:708-719 | a failed search leaves the record untouched, so the search of the neighbouring cell starts afresh |
| `VoxelOctoTree.OctoNode.InitPlane` | ws/src/fast_livo/src/voxel_map.cpp:84-164 | the node's plane becomes the fit of its buffer and nothing else changes |
| `VoxelOctoTree.OctoNode.Distribute` | ws/src/fast_livo/src/voxel_map.cpp:199-217 | the loop over the buffer gives every leaf exactly the points of its octant, in order, creating missing leaves; the parent keeps its buffer |
| `VoxelOctoTree.OctoNode.SettleLeaf` | ws/src/fast_livo/src/voxel_map.cpp:220-244 | one leaf after a cut is initialised as Init says, its sisters untouched |
| `VoxelOctoTree.OctoNode.CutOctoTree` | ws/src/fast_livo/src/voxel_map.cpp:192-246 | the heap tree below a cut node has the value InitLeaves, and nothing is cut at the bottom layer |
| `VoxelOctoTree.OctoNode.InitOctoTree` | ws/src/fast_livo/src/voxel_map.cpp:166-190 | in place, the tree takes the value Init: fit, freeze when over max_points_num_, or split |
| `VoxelOctoTree.OctoNode.UpdateOctoTree` | ws/src/fast_livo/src/voxel_map.cpp:248-319 | in place, the tree takes the value Update, with all its branches and both size tests |
| `VoxelOctoTree.OctoNode.UpdateLeaf` | ws/src/fast_livo/src/voxel_map.cpp:279-297 | a split node passes the point to the leaf of its octant, created if missing; its other leaves keep their values |
| `VoxelOctoTree.OctoNode.FindCorrespond` | ws/src/fast_livo/src/voxel_map.cpp:321-334 | the node returned represents Find |
| `VoxelOctoTree.OctoNode.BuildSingleResidual` | ws/src/fast_livo/src/voxel_map.cpp:742-815 | the recursion over heap nodes computes Search |
| `VoxelMap.TruncatedIsFloor` | ws/src/fast_livo/src/voxel_map.cpp:649-655 | the key is the floor of the scaled coordinate, except one less on exact negative multiples |
| `VoxelMap.RootHolds` | ws/src/fast_livo/src/voxel_map.cpp:649-666 | every point lies in the closed cube of the root its key selects |
| `VoxelMap.InsertKeeps` | ws/src/fast_livo/src/voxel_map.cpp:648-668 | inserting a point into the map makes it findable and keeps every other point of the map |
| `VoxelMap.InsertEvolves` | ws/src/fast_livo/src/voxel_map.cpp:648-668 | inserting a point only evolves the trees of the map |
| `VoxelMap.MapRunKeeps` | ws/src/fast_livo/src/voxel_map.cpp:638-670 | over every run of UpdateVoxelMap: no cell disappears, trees only evolve, every inserted point is kept, and the newest is found where find_correspond looks |
| `VoxelMap.GatherCollects` | ws/src/fast_livo/src/voxel_map.cpp:586-615 | the first loop of BuildVoxelMap leaves each point in the buffer of its own cell |
| `VoxelMap.BuildKeeps` | ws/src/fast_livo/src/voxel_map.cpp:586-619 | the map built from the first scan satisfies the invariant and every point of the scan is found |
| `VoxelMap.WholeRun` | ws/src/fast_livo/src/voxel_map.cpp:561-670 | from BuildVoxelMap on, over every interleaving of insertions and clearings: no point leaves the map except by freezing or when its cell is cleared, and trees of cells that are not cleared only evolve |
| `VoxelMapManager.Manager.InsertPoint` | ws/src/fast_livo/src/voxel_map.cpp:648-668 | one round of the update loop changes the hash map of heap trees exactly as Insert says |
| `VoxelMapManager.Manager.UpdateVoxelMap` | ws/src/fast_livo/src/voxel_map.cpp:638-670 | a scan changes the map exactly as InsertAll says, trees staying disjoint |
| `VoxelMapManager.Manager.GatherAll` | ws/src/fast_livo/src/voxel_map.cpp:586-615 | the first loop of BuildVoxelMap, into an empty map |
| `VoxelMapManager.Manager.InitAll` | ws/src/fast_livo/src/voxel_map.cpp:616-619 | the second loop initialises every root, in any order with one result |
| `VoxelMapManager.Manager.BuildVoxelMap` | ws/src/fast_livo/src/voxel_map.cpp:561-620 | the first scan builds the map Build and establishes the invariant |
| `VoxelMap.ClearedInv` | ws/src/fast_livo/src/voxel_map.cpp:979-1000 | clearing keeps the map invariant, and keeps exactly the points of the cells inside the box |
| `VoxelMap.ClearingRunKeeps` | ws/src/fast_livo/src/voxel_map.cpp:638-670 | over every run of insertions and clearings, from any map: points there at the start and points inserted on the way are kept unless their cell has been cleared since |
| `VoxelMap.CellsExactly` | ws/src/fast_livo/src/voxel_map.cpp:979-1000 | after such a run a cell is in the map exactly when it was there or was inserted into, and has not been cleared since |
| `VoxelMap.ClearingRunEvolves` | ws/src/fast_livo/src/voxel_map.cpp:248-319 | over such a run the tree of a cell that is not cleared only evolves: frozen planes stay, split nodes stay split |
| `VoxelSources.UpdateSourced` | ws/src/fast_livo/src/voxel_map.cpp:166-319 | every buffer of a tree is a stretch, without gaps and in order, of the points sent to its node, reaching up to the newest while the node collects; a node is initialised only by more points than its threshold, and frozen only by max_points_num_ or more; one update keeps that |
| `VoxelSources.WholeRunSourced` | ws/src/fast_livo/src/voxel_map.cpp:561-670 | from the first scan on, over every interleaving of insertions and clearings, every buffer of the map is such a stretch of the points inserted into its cell and octant |
| `VoxelMapManager.Manager.ClearMemOutOfMap` | ws/src/fast_livo/src/voxel_map.cpp:979-1000 | exactly the cells with all three coordinates within the bounds stay, with their trees |
| `VoxelMapManager.MatchIsArgmax` | ws/src/fast_livo/src/voxel_map.cpp:691-735 | a match succeeds iff a topmost plane of the own cell, or else of the one neighbour tried, passes both gates; it then reports the first gated one of greatest density there; a failed match reports nothing |
| `VoxelMapManager.ResidualsAreArgmaxes` | ws/src/fast_livo/src/voxel_map.cpp:672-740 | the residual list belongs to exactly the points with a gated candidate, in input order, and each entry is the first densest of its candidates |
| `VoxelMapManager.TriedIsNear` | ws/src/fast_livo/src/voxel_map.cpp:708-717 | the neighbour tried is at most one cell away in each coordinate, up only from above the centre and down only from below |
| `VoxelMapManager.NearKeyTried` | ws/src/fast_livo/src/voxel_map.cpp:708-717 | each coordinate of the neighbour comes from the same coordinate of the point |
| `VoxelMapManager.TriedExactly` | ws/src/fast_livo/src/voxel_map.cpp:708-717 | the cell tried is the one beyond the nearest face within a quarter of the edge, for all coordinates from zero on, exactly at voxel size 1; at that size, below zero, exactly within a quarter of the lower face |
| `VoxelMapManager.Manager.MatchOne` | ws/src/fast_livo/src/voxel_map.cpp:693-733 | own cell first, then one neighbouring cell chosen by the centre test, with the record carried over |
| `VoxelMapManager.Manager.MatchAll` | ws/src/fast_livo/src/voxel_map.cpp:691-735 | the parallel loop records each point's match whatever order its rounds run in |
| `VoxelMapManager.Manager.BuildResidualList` | ws/src/fast_livo/src/voxel_map.cpp:672-740 | for any iteration order the list is the successful matches in input order |
| `SynchroniserFacts.CutSplit` | ws/src/fast_livo/src/LIVMapper.cpp:1086-1109 | each point of the consumed clouds goes to this cut or to the next, exactly one of them, with its capture time kept |
| `SynchroniserFacts.LoopBackMisaligns` | ws/src/fast_livo/src/LIVMapper.cpp:822-826 | clouds and header stamps stay aligned through a cloud exactly when its stamp does not go back or no cloud is buffered |
| `SynchroniserFacts.LoopBackWitness` | ws/src/fast_livo/src/LIVMapper.cpp:822-826 | a run of two frames after which a cloud is buffered with the stamp of the one before it |
| `SynchroniserFacts.CutConserves` | ws/src/fast_livo/src/LIVMapper.cpp:1057-1119 | a cut conserves every point, counted by payload always, and by capture time when its base is the previous cut |
| `SynchroniserFacts.PayloadsConserved` | ws/src/fast_livo/src/LIVMapper.cpp:1016-1151 | over every run whatever: points received = points handed to LIO + points carried + points buffered + points cleared by frames whose stamps go back, counted per payload |
| `SynchroniserFacts.InOrderDropsNothing` | ws/src/fast_livo/src/LIVMapper.cpp:822-826 | nothing is cleared, and every cloud keeps its own stamp, on runs where no stamp goes back while clouds are buffered |
| `SynchroniserFacts.LioVioAlternate` | ws/src/fast_livo/src/LIVMapper.cpp:1020-1151 | over every run LIO and VIO steps strictly alternate and each vio_time equals the lio_time before it |
| `SynchroniserFacts.RunBase` | ws/src/fast_livo/src/IMU_Processing.cpp:444 | over every run, once IMU initialisation is over, propagation starts at the previous cut time, and so does the next cut, unless that time is negative: then it starts from the stamp of the first cloud |
| `SynchroniserFacts.EarlyCutForgotten` | ws/src/fast_livo/src/LIVMapper.cpp:1030-1033 | a run of seven events with a cloud from before time zero, after which the next cut starts at 0.0 though the last one was at -0.5 |
| `SynchroniserFacts.RunInit` | ws/src/fast_livo/src/IMU_Processing.cpp:568-592 | on every run with lidar stamps from zero on, cuts are not before zero, and during initialisation the base lies between zero and the newest cut |
| `SynchroniserFacts.CaptureTimesConserved` | ws/src/fast_livo/src/LIVMapper.cpp:1057-1119 | once initialisation is over, points are conserved together with their absolute capture time, also through pcl_proc_next, while lidar stamps are in order and none is negative |
| `SynchroniserFacts.CarriedTimeExactly` | ws/src/fast_livo/src/IMU_Processing.cpp:568-600 | on every run with lidar stamps from zero on, the next cut hands a carried point on with its capture time exactly when imu_need_init is false |
| `SynchroniserFacts.CarryingMistimes` | ws/src/fast_livo/src/IMU_Processing.cpp:568-592 | a run of eight events during initialisation after which a point captured at 1.5 is handed on as captured at 0.5, with the cut at 1.1 |
| `SynchroniserFacts.HandedByCut` | ws/src/fast_livo/src/LIVMapper.cpp:1057-1119 | everything a cut hands on was captured by the cut exactly when no carried offset exceeds the distance of the two cuts |
| `SynchroniserFacts.PoppedExact` | ws/src/fast_livo/src/LIVMapper.cpp:1064-1073 | the samples removed are exactly those up to the capture time |
| `SynchroniserFacts.WindowExact` | ws/src/fast_livo/src/LIVMapper.cpp:1064-1073 | the samples handed over are exactly those after the last update and up to the capture time |
| `SynchroniserFacts.SegmentsTelescope` | ws/src/fast_livo/src/IMU_Processing.cpp:336-381 | the time steps of one propagation are non-negative, and sum to the whole interval exactly when there are two samples, or one that starts or ends it, or nothing to integrate |
| `SynchroniserFacts.ImuOrderExactly` | ws/src/fast_livo/src/LIVMapper.cpp:866-873 | the IMU callback keeps the buffer in order exactly when the sample is not earlier, or the last stamp is positive, or no cloud has come yet |
| `SynchroniserFacts.RunSorted` | ws/src/fast_livo/src/LIVMapper.cpp:866-882 | with positive IMU stamps every window ever handed on is sorted |
| `SynchroniserFacts.FixedStampNear` | ws/src/fast_livo/src/LIVMapper.cpp:862 | the driver fix moves an IMU stamp by whole seconds to within half a second of the newest cloud |
| `SynchroniserFacts.RunTimed` | ws/src/fast_livo/src/IMU_Processing.cpp:254-448 | on every run each LIO step's samples lie in (base, cut], and its steps are non-negative and with two samples sum to its length, if the samples are sorted and the base is where propagation starts |
| `SynchroniserFacts.LogTelescopes` | ws/src/fast_livo/src/IMU_Processing.cpp:331-448 | over n consecutive LIO steps after initialisation with two sorted samples each and cuts not before zero, the integrated times sum to the difference of the cut times, and their windows are adjacent |
| `SynchroniserFacts.IntegratedTimeTelescopes` | ws/src/fast_livo/src/IMU_Processing.cpp:331-448 | the same for every run of the system |
| `SynchroniserStreams.TakenExactly` | ws/src/fast_livo/src/LIVMapper.cpp:845-958 | an image is taken in exactly when a cloud has come and it is 20 ms after the last one, a sample exactly when a cloud has come and it is not earlier than the last one nor over 0.2 s later; the other two image tests decide nothing |
| `SynchroniserStreams.CutsExactly` | ws/src/fast_livo/src/LIVMapper.cpp:1016-1055 | a tick cuts exactly when there are clouds, samples and an image, the last cut was handed to VIO, and the capture time is past the base and reached by newest cloud and newest sample |
| `SynchroniserStreams.RunBehind` | ws/src/fast_livo/src/LIVMapper.cpp:1049-1073 | on every run with positive stamps no IMU sample comes behind a cut: the newest sample and all buffered ones are not before it |
| `SynchroniserStreams.RunKeepsImus` | ws/src/fast_livo/src/LIVMapper.cpp:1064-1073 | with positive IMU stamps and no negative lidar stamp, every IMU sample taken in after the base of the first cut is handed on in exactly one window, in order, or still buffered, unless it has the very time of a cut |
| `SynchroniserStreams.RunCounts` | ws/src/fast_livo/src/IMU_Processing.cpp:568-592 | on every run propagation goes on from the last sample handed on, and initialisation is over exactly when some samples were counted and the count exceeds MAX_INI_COUNT |
| `SynchroniserStreams.RunKeepsImages` | ws/src/fast_livo/src/LIVMapper.cpp:1041-1151 | with no negative lidar stamp, every image taken in becomes exactly one VIO step, in order, or is waiting, but for the first few, from before the base of the first cut |
| `SynchroniserStreams.CutsWaitForClouds` | ws/src/fast_livo/src/LIVMapper.cpp:1038-1055 | when clouds follow one another no cut is after the last point received |
| `SynchroniserStreams.ConsumedExactly` | ws/src/fast_livo/src/LIVMapper.cpp:1077-1086 | a cut takes exactly the buffered clouds that start by its time |
| `SynchroniserStreams.CutInOrder` | ws/src/fast_livo/src/LIVMapper.cpp:1086-1109 | what a cut takes from the clouds, and what it carries over, keeps the order of reception |
| `SynchroniserStreams.GapIsForever` | ws/src/fast_livo/src/LIVMapper.cpp:873-880 | from any state with a sorted buffer and a positive last stamp, once all stamps are more than 0.2 s beyond it, no sample is ever taken in again, and no cut is made after the last one |
| `LivMapper.Mapper.LivoxPclCbk` | ws/src/fast_livo/src/LIVMapper.cpp:802-843 | the callback changes the buffers as LidarCbk says |
| `LivMapper.Mapper.ReceiveImu` | ws/src/fast_livo/src/LIVMapper.cpp:845-882 | the callback corrects the stamp by offset and driver fix and changes the buffers as ImuCbk says: loop-backs and jumps over 0.2 s are dropped |
| `LivMapper.Mapper.ReceiveImage` | ws/src/fast_livo/src/LIVMapper.cpp:905-958 | the callback changes the buffers as ImgCbk says: duplicates, loop-backs and images closer than 20 ms are dropped |
| `LivMapper.Mapper.TakeImus` | ws/src/fast_livo/src/LIVMapper.cpp:1064-1073 | the popping loop hands over and removes what PopImus says |
| `LivMapper.Mapper.SplitCloud` | ws/src/fast_livo/src/LIVMapper.cpp:1093-1106 | the loop over a cloud distributes and re-bases its points over this cut and the next |
| `LivMapper.Mapper.TakeClouds` | ws/src/fast_livo/src/LIVMapper.cpp:1077-1109 | the loop over the buffered clouds consumes exactly those that start by the capture time |
| `LivMapper.Mapper.Propagate` | ws/src/fast_livo/src/IMU_Processing.cpp:336-383 | the forward loop takes exactly the time steps Segments |
| `LivMapper.Mapper.ImuInit` | ws/src/fast_livo/src/IMU_Processing.cpp:568-592 | counting samples, remembering the last, and ending initialisation once more than MAX_INI_COUNT were seen |
| `LivMapper.Mapper.Process2` | ws/src/fast_livo/src/IMU_Processing.cpp:555-600 | initialise, or propagate and move the base and the propagation end to the step's time |
| `LivMapper.Mapper.TakeBuffers` | ws/src/fast_livo/src/LIVMapper.cpp:1057-1119 | the data-cutting part changes the buffers as CutBuffers says |
| `LivMapper.Mapper.Spin` | ws/src/fast_livo/src/LIVMapper.cpp:1016-1151 | one round of sync_packages and processing makes exactly one TickStep, and reports whether it handed anything on |
| `ForestTours.WalkStays` | ws/src/r2_controller/scripts/forest_planner.py:46 | on a closed map walks never leave the map, so no look-up fails |
| `ForestTours.ShortestExists` | ws/src/r2_controller/scripts/forest_planner.py:33-60 | where there is a walk there is a shortest one |
| `ForestTours.PathLength` | ws/src/r2_controller/scripts/forest_planner.py:71 | the key of the minimum: 0 exactly for unreachable blocks, else the length of every shortest walk |
| `ForestTours.ShortestNeverStutters` | ws/src/r2_controller/scripts/forest_planner.py:75 | a shortest walk never repeats a block in succession |
| `ForestTours.CutRepeat` | ws/src/r2_controller/scripts/forest_planner.py:75 | leaving out a repeated block shortens a walk, so shortest walks have none |
| `ForestTours.LegsJoin` | ws/src/r2_controller/scripts/forest_planner.py:70-77 | the legs of a greedy tour join into one walk from the start that never repeats a block in succession |
| `ForestTours.TargetsVisited` | ws/src/r2_controller/scripts/forest_planner.py:70-77 | every target removed from unvisited is on that walk |
| `ForestTours.TourIsComplete` | ws/src/r2_controller/scripts/forest_planner.py:62-89 | on a strongly connected map holding start, targets and entrances: the route of a tour is a walk from start visiting every target and ending at an entrance nearest the last target |
| `ForestTours.RouteEmptyExactly` | ws/src/r2_controller/scripts/forest_planner.py:85 | the route stays empty, where the code fails on route[0], exactly when some entrance is unreachable from the start and there is no target but the start or some target is unreachable |
| `ForestTours.DeadEnd` | ws/src/r2_controller/scripts/forest_planner.py:85 | the condition is met: a start without neighbours and nothing to collect |
| `ForestTours.DedupChangesNothing` | ws/src/r2_controller/scripts/forest_planner.py:85-89 | the de-duplication pass gives a list without repeats, and returns its input exactly when that had none |
| `ForestTours.TourNeverStutters` | ws/src/r2_controller/scripts/forest_planner.py:85-89 | on every route plan_route builds the de-duplication pass changes nothing |
| `ForestPlanner.LeastExists` | ws/src/r2_controller/scripts/forest_planner.py:41 | a non-empty heap has a least entry |
| `ForestPlanner.Popped` | ws/src/r2_controller/scripts/forest_planner.py:41-43 | popping the least entry keeps the search invariant and its entry is never stale |
| `ForestPlanner.WalkSeen` | ws/src/r2_controller/scripts/forest_planner.py:40-51 | on every walk from the start, block i is seen at distance at most i, as far as the search went |
| `ForestPlanner.NoShorterWalk` | ws/src/r2_controller/scripts/forest_planner.py:40-53 | no walk to the goal is shorter than the distance found, and without a distance there is no walk |
| `ForestPlanner.ChainIsWalk` | ws/src/r2_controller/scripts/forest_planner.py:54-60 | the predecessors followed back from the goal, reversed, are a walk from the start |
| `ForestPlanner.Planner.Relax` | ws/src/r2_controller/scripts/forest_planner.py:46-51 | one relaxation keeps the search invariant and sees the neighbour |
| `ForestPlanner.Planner.Expand` | ws/src/r2_controller/scripts/forest_planner.py:46-51 | expanding a block keeps the invariant and sees all its neighbours |
| `ForestPlanner.Planner.Explore` | ws/src/r2_controller/scripts/forest_planner.py:37-51 | the main loop terminates, with the goal popped at its distance or with an empty heap, and the search invariant at that point |
| `ForestPlanner.Planner.WalkBack` | ws/src/r2_controller/scripts/forest_planner.py:54-60 | the reconstruction gives a walk of distance + 1 blocks |
| `ForestPlanner.Planner.ShortestPath` | ws/src/r2_controller/scripts/forest_planner.py:33-60 | for every closed map: a shortest walk from start to goal, or the empty list exactly when there is none |
| `ForestPlanner.Planner.BlockDistance` | ws/src/r2_controller/scripts/forest_planner.py:91-94 | the number of steps of a shortest walk; 0 exactly for the block itself and for unreachable blocks |
| `ForestPlanner.Planner.Nearest` | ws/src/r2_controller/scripts/forest_planner.py:71-80 | min with a key: the first candidate of least path length |
| `ForestPlanner.Planner.Collect` | ws/src/r2_controller/scripts/forest_planner.py:67-77 | each leg is a shortest walk to a nearest target left; the loop ends when none is left or one left is unreachable |
| `ForestPlanner.Planner.PlanRoute` | ws/src/r2_controller/scripts/forest_planner.py:62-89 | the route is that of some tour of greedy legs and a shortest leg to the first nearest entrance (none when some entrance is unreachable), unchanged by de-duplication; it is missing, where the code fails on an empty list, exactly when an entrance is unreachable from the start and so is a target, unless there is none but the start; on a strongly connected map it is a walk from the start visiting every target and ending at an entrance |
| `ForestPlanner.WithoutRepeats` | ws/src/r2_controller/scripts/forest_planner.py:85-89 | the de-duplication loop computes Dedup |
| `ForestPlanner.ClosedWalkConnects` | ws/src/r2_controller/scripts/forest_planner.py:21-26 | a closed walk over all blocks makes a map strongly connected |
| `ForestPlanner.LayoutConnected` | ws/src/r2_controller/scripts/forest_planner.py:21-26 | the default layout is closed and strongly connected |
| `ForestPlanner.LayoutIsGrid` | ws/src/r2_controller/scripts/forest_planner.py:12-26 | the default layout is the grid of twelve blocks in rows of four, with an edge exactly between blocks that share a side |
| `Utf.Encode8Exact` | ws/src/livox_ros_driver2/3rdparty/rapidjson/encodings.h:107-125 | what UTF8::Encode writes is well formed by section 4 of RFC 3629 exactly for scalar values, and carries the value |
| `Utf.Value8Exact` | ws/src/livox_ros_driver2/3rdparty/rapidjson/encodings.h:107-125 | a well-formed character is the only encoding of its value |
| `Utf.CharLength` | ws/src/livox_ros_driver2/3rdparty/rapidjson/encodings.h:269-298 | the first byte determines the length of a well-formed character |
| `Utf.EncodeDecode8` | ws/src/livox_ros_driver2/3rdparty/rapidjson/encodings.h:107-211 | decoding any concatenation of encoded scalar values gives them back |
| `Utf.DecodeEncode8` | ws/src/livox_ros_driver2/3rdparty/rapidjson/encodings.h:107-211 | UTF-8 text is the only encoding of the scalar values it holds |
| `Utf.Encode16Exact` | ws/src/livox_ros_driver2/3rdparty/rapidjson/encodings.h:354-368 | what UTF16::Encode writes is well formed by section 2.1 of RFC 2781 and carries the value |
| `Utf.EncodeDecode16` | ws/src/livox_ros_driver2/3rdparty/rapidjson/encodings.h:354-402 | decoding any concatenation of encoded scalar values gives them back |
| `Utf.DecodeEncode16` | ws/src/livox_ros_driver2/3rdparty/rapidjson/encodings.h:354-402 | UTF-16 text is the only encoding of the scalar values it holds |
| `Utf.ThereAndBack` | ws/src/livox_ros_driver2/3rdparty/rapidjson/encodings.h:749-760 | transcoding any UTF-8 text to UTF-16 and back is the identity on bytes |
| `Utf.BackAndThere` | ws/src/livox_ros_driver2/3rdparty/rapidjson/encodings.h:749-760 | transcoding any UTF-16 text to UTF-8 and back is the identity on units |
| `UtfStreams.MasksSelect` | ws/src/livox_ros_driver2/3rdparty/rapidjson/encodings.h:269-298 | on the range table, the masks 0x70, 0x50, 0x10, 0x20 and 0x60 select exactly the byte ranges of RFC 3629 |
| `UtfStreams.LeadKinds` | ws/src/livox_ros_driver2/3rdparty/rapidjson/encodings.h:269-298 | the class and payload bits of every first byte |
| `UtfStreams.Encode8To` | ws/src/livox_ros_driver2/3rdparty/rapidjson/encodings.h:107-125 | the bytes put are Encode8 |
| `UtfStreams.Decode8From` | ws/src/livox_ros_driver2/3rdparty/rapidjson/encodings.h:147-211 | the table automaton accepts exactly a well-formed character, gives its value, and always reads as many bytes as the first announces |
| `UtfStreams.Validate8` | ws/src/livox_ros_driver2/3rdparty/rapidjson/encodings.h:213-267 | same verdict and same reading as Decode, copying every byte read |
| `UtfStreams.AcceptsExactly` | ws/src/livox_ros_driver2/3rdparty/rapidjson/memorystream.h:54-55 | what is accepted is exactly a well-formed character at the front of what is left, and the NUL read at the end of the stream |
| `UtfStreams.Encode16To` | ws/src/livox_ros_driver2/3rdparty/rapidjson/encodings.h:354-368 | the units put are Encode16 |
| `UtfStreams.Decode16From` | ws/src/livox_ros_driver2/3rdparty/rapidjson/encodings.h:387-402 | accepts exactly a non-surrogate unit or a surrogate pair, with its value |
| `UtfStreams.Validate16` | ws/src/livox_ros_driver2/3rdparty/rapidjson/encodings.h:404-417 | same verdict and same reading as the UTF-16 Decode, copying every unit read |
| `UtfStreams.Transcode8To16` | ws/src/livox_ros_driver2/3rdparty/rapidjson/encodings.h:753-760 | one character is transcoded, or nothing is written; what was decoded always meets the encoder's assertion |
| `UtfStreams.Transcode16To8` | ws/src/livox_ros_driver2/3rdparty/rapidjson/encodings.h:753-760 | the same from UTF-16 to UTF-8 |
| `UtfStreams.NextChar8` | ws/src/livox_ros_driver2/3rdparty/rapidjson/encodings.h:147-211 | text at a position is its next character followed by text, transcoded piece by piece |
| `UtfStreams.WriteRaw8To16` | ws/src/livox_ros_driver2/3rdparty/rapidjson/writer.h:544-557 | on the first length bytes of a terminated string, with anything behind the terminator, the writing loop succeeds exactly on UTF-8 text and then has written its whole transcoding; on text the assertion against NUL holds exactly when there is none in it |
| `UtfStreams.WriteRaw16To8` | ws/src/livox_ros_driver2/3rdparty/rapidjson/writer.h:544-557 | the same from UTF-16 to UTF-8 |
| `LivoxHandoff.PushKeepsGuard` | ws/src/livox_ros_driver2/src/lds.cpp:184 | a push, on a full queue or not, keeps every lidar guarded: data of a sampling lidar is never there without the consumer coming |
| `LivoxHandoff.ProduceKeepsGuard` | ws/src/livox_ros_driver2/src/lds.cpp:184-196 | every later step of a producer keeps every lidar guarded |
| `LivoxHandoff.ConsumeKeepsGuard` | ws/src/livox_ros_driver2/src/lddc.cpp:128-177 | every step of the consumer keeps every lidar guarded: waking, passing over, polling, popping, moving on |
| `LivoxHandoff.StrandsExactly` | ws/src/livox_ros_driver2/src/lds.cpp:170-196 | from any state, steps of the threads at work can end with data of a lidar stranded exactly when it is there, the lidar samples, and nothing brings the consumer: no positive count, no pass that still comes to it, no producer that has yet to look at the count with its packet there to stay; further pushes cannot change that |
| `LivoxHandoff.ConnectExactly` | ws/src/livox_ros_driver2/src/lddc.cpp:133 | from a state in which nothing can get stranded, a lidar that starts sampling leaves something that can exactly when it is not timely, a condition on the count, the consumer and the producers at that moment |
| `LivoxHandoff.NoLostWakeup` | ws/src/livox_ros_driver2/src/lds.cpp:170-196 | in every interleaving of any number of producers with the consumer: at no point of the run can data of a sampling lidar get stranded, if and only if all connections are timely |
| `LivoxHandoff.RunConserves` | ws/src/livox_ros_driver2/src/lddc.cpp:217-231 | in every interleaving what was accepted for a lidar is what was taken from it followed by what is queued |
| `LivoxHandoff.RestMeansDelivered` | ws/src/livox_ros_driver2/src/lddc.cpp:118-138 | whenever the driver is at rest, each accepted packet of a sampling lidar was taken once, in order, if connections were timely since some point at which nothing could get stranded |
| `LivoxHandoff.Ledger` | ws/src/livox_ros_driver2/src/lds.cpp:184-185 | with one producer for a lidar, over every run: what is accepted or in its hands is, in order, exactly what was offered while fewer packets than the capacity were queued |
| `LivoxHandoff.RestMeansAllAdmitted` | ws/src/livox_ros_driver2/src/lds.cpp:170-196 | end to end: at rest, with timely connections, the consumer has taken from a sampling lidar exactly the packets offered while its queue had room, in order |
| `LivoxHandoff.RunCounts` | ws/src/livox_ros_driver2/src/lds.cpp:187-195 | however pushes race on the count, it never exceeds the number of producers |
| `LivoxHandoff.SignalsWake` | ws/src/livox_ros_driver2/src/comm/semaphore.cpp:29-39 | every signal wakes the consumer for one pass or is still pending |
| `LivoxHandoff.LateConnectionStrands` | ws/src/livox_ros_driver2/src/call_back/livox_lidar_callback.cpp:139-141 | a run in which a lidar starts sampling after the consumer passed over its packet ends with the packet stranded |
| `LivoxHandoff.NextPushWakes` | ws/src/livox_ros_driver2/src/lds.cpp:184-195 | from any state a push that runs uninterrupted leaves the count positive, also on a full queue |
| `LivoxHandoff.NoOverrun` | ws/src/livox_ros_driver2/src/lds.cpp:184-185 | with one producer for each lidar no queue exceeds its capacity although check and store are separate steps |
| `LivoxRing.RingDelivers` | ws/src/livox_ros_driver2/src/comm/ldq.cpp:86-148 | over every interleaving of the single accesses of one writer and one reader to cells and counters: accepted packets are those taken followed by those in the ring, so they arrive whole, once, in order, across counter wrap-around |
| `LivoxRing.CallsExactly` | ws/src/livox_ros_driver2/src/comm/ldq.cpp:128-134 | a free writer takes an offered packet exactly when there is room, a resting reader starts exactly when there is a packet |
| `LivoxRing.NeverOneCell` | ws/src/livox_ros_driver2/src/comm/ldq.cpp:136-148 | while both are at work writer and reader are never in one cell |
| `LivoxRing.StepRefines` | ws/src/livox_ros_driver2/src/comm/ldq.cpp:86-148 | each access leaves the queue as it is, or stores the offered packet while there is room, or pops the oldest: the steps of LivoxHandoff |
| `LivoxQueue.RoundupPowerOf2` | ws/src/livox_ros_driver2/src/comm/ldq.h:39-49 | the least power of two not below the size where 32 bits hold one, the greatest they hold otherwise |
| `LivoxQueue.WrapKeepsSlot` | ws/src/livox_ros_driver2/src/comm/ldq.cpp:97 | wrapping a counter at 2^32 does not move the cell it addresses |
| `LivoxQueue.RingPush` | ws/src/livox_ros_driver2/src/comm/ldq.cpp:136-148 | writing the cell behind the last extends the contents while there is room |
| `LivoxQueue.LidarQueue.constructor` | ws/src/livox_ros_driver2/src/comm/ldq.cpp:33-61 | an initialised queue is empty, and its size is the size asked for rounded up to a power of two, or 2^31 when more is asked for |
| `LivoxQueue.LidarQueue.IsFull` | ws/src/livox_ros_driver2/src/comm/ldq.cpp:128-130 | full exactly when it holds as many packets as cells |
| `LivoxQueue.LidarQueue.IsEmpty` | ws/src/livox_ros_driver2/src/comm/ldq.cpp:132-134 | empty exactly when it holds nothing |
| `LivoxQueue.LidarQueue.Push` | ws/src/livox_ros_driver2/src/comm/ldq.cpp:136-148 | the packet is appended, also across counter wrap-around |
| `LivoxQueue.LidarQueue.Pop` | ws/src/livox_ros_driver2/src/comm/ldq.cpp:86-118 | the oldest packet is removed and returned, also across counter wrap-around; nothing from an empty queue |
| `VisualPoints.WithoutKeeps` | ws/src/fast_livo/src/visual_point.cpp:46-54 | deleting one observation removes exactly it |
| `VisualPoints.OnlyOne` | ws/src/fast_livo/src/visual_point.cpp:113-127 | of distinct observations only the reference is left |
| `VisualPoints.OnlyNull` | ws/src/fast_livo/src/visual_point.cpp:113-127 | without a reference no observation is left |
| `VisualPoints.ErrorBounded` | ws/src/fast_livo/src/vio.cpp:656-691 | errors of pixel patches stay below the greatest float, so a best reference is always found |
| `VisualPoints.VisualPoint.constructor` | ws/src/fast_livo/src/vio.cpp:878-888 | a new point has its first observation, no reference, and is valid |
| `VisualPoints.VisualPoint.DeleteFeatureRef` | ws/src/fast_livo/src/visual_point.cpp:39-55 | the first occurrence goes, and the reference with it exactly when it is the reference |
| `VisualPoints.VisualPoint.FindMinScoreFeature` | ws/src/fast_livo/src/visual_point.cpp:97-111 | the first observation of least score, passing over scores that are no numbers; the newest when no score is below the greatest float |
| `VisualPoints.VisualPoint.DeleteNonRefPatchFeatures` | ws/src/fast_livo/src/visual_point.cpp:113-127 | the erasing loop leaves exactly the occurrences of the reference |
| `VisualPoints.VisualPoint.Photometric` | ws/src/fast_livo/src/vio.cpp:666-683 | the nested loops compute the mean squared difference to the patches of other frames |
| `VisualPoints.VisualPoint.ChooseReference` | ws/src/fast_livo/src/vio.cpp:654-694 | the reference chosen: the only observation, the one there is, or the first of least mean error; afterwards there is one |
| `VisualPoints.VisualPoint.CloseViewObs` | ws/src/fast_livo/src/visual_point.cpp:57-95 | without normals: the observation seen from the direction nearest to the camera is taken, exactly when one is within 60 degrees |
| `VisualPoints.VisualPoint.MakeRoom` | ws/src/fast_livo/src/vio.cpp:948-954 | at 30 observations the one of least score goes, and the reference with it if it is that one |
| `VisualPoints.VisualPoint.Observe` | ws/src/fast_livo/src/vio.cpp:915-965 | a converged point keeps exactly its reference; another makes room and gains the new observation in front; the list stays between 1 and 30 exactly when a converged point has a reference |
| `VisualPoints.VisualPoint.Rescore` | ws/src/fast_livo/src/vio.cpp:981-1100 | the first observation of greatest score above -1000 becomes the reference, the point converges when settled with more than 10; it ends up converged without a reference exactly when it converges, had none, and no score is a number above -1000 |
| `VisualPoints.VisualPoint.ProcessFrame` | ws/src/fast_livo/src/vio.cpp:1787-1829 | a point survives a whole frame exactly when it is not, without normal_en, reached and updated while converged without a reference; a converged point keeps its reference |
| `VisualPoints.VisualPoint.LosesAll` | ws/src/fast_livo/src/vio.cpp:915-1100 | two frames without normal_en: with scores that are no numbers a point without reference converges, and the next update erases all its observations |
| `VisualPoints.VisualPoint.Live` | ws/src/fast_livo/src/vio.cpp:1787-1829 | over any sequence of frames, whatever the scores: 1 to 30 observations, the reference is one of them, and after convergence it is never lost or replaced; only without normal_en nothing may be left, and then some frame scored none of more than ten observations with a number |

## Left out

- R2Messages.HandlePath: the structure handed to the callback is the decoded entries; entries beyond them, uninitialised in C, are not modelled.
- R2Messages.HandleZoneInfo: the other downlink commands and the exceptions they raise on short payloads in the receive thread are not modelled.
- R2Messages.PackPath: conversion of Python floats to 32-bit words is not modelled; a coordinate is the word that goes on the wire.
- The odometry message, heartbeat, reset signal, reconnection and logging of the serial bridge: I/O or straight-line packing.
- VoxelOctoTree.OctoNode.InitPlane: the eigenvalue computation is a parameter; plane identifiers, update flags and the stale geometry of planes that are not planar are not modelled.
- VoxelOctoTree.OctoNode.SettleLeaf: the code repeats the initialisation inline and resets the parent's new_points_ where it means the leaf's; the model calls InitOctoTree, because both counters are 0 afterwards in every case.
- VoxelMap.BuildKeeps: buffers are bounded by the size of the first scan there; the bound by thresholds and max_points_num_ alone is for maps grown by UpdateVoxelMap.
- VoxelMapManager.Manager.MatchAll: data races of the parallel loop on bit-packed flags are excluded by the lock and are not modelled; rounds run one after the other in any order.
- VoxelOctoTree::Insert (no caller, and it ignores freezing), the decision of mapSliding when and around what to clear, publishing, the Kalman update and the octo_state_ field, which is written and never read.
- The configuration is assumed to give every layer up to max_layer_ a threshold; negative thresholds are not modelled.
- LivMapper.Mapper.ReceiveImu: the separate IMU-rate propagation buffer is not modelled.
- LivMapper.Mapper.ImuInit: the running means of acceleration and angular rate and the gravity estimate are not modelled, because nothing in the time keeping depends on them.
- LivMapper.Mapper.Propagate: only the time steps are modelled, not pose, velocity, covariance or the undistortion of points.
- LivMapper.Mapper.Spin: only LIVO mode with all sensors enabled; the modes without images or IMU, locking and rounding of times are not modelled.
- ForestPlanner.Planner.Explore: the binary heap is a multiset from which the least pair is taken.
- ForestPlanner.Planner.PlanRoute: a start outside the map, which raises a KeyError in the code unless nothing has to be searched, is excluded.
- UtfStreams.Decode8From: the code point left behind by a failed decode is not specified; on 32-bit wchar_t units above 0xFFFF are not modelled.
- UtfStreams.WriteRaw8To16: a terminated string is assumed, as memorystream.h:42-43 says of string streams. A failed assertion against NUL is reported and the loop goes on, as in builds without assertions; the escaping of WriteString is not modelled. The same holds for WriteRaw16To8.
- The remaining encodings (UTF-16LE/BE, UTF-32, AutoUTF, ASCII) and byte-order marks of rapidjson.
- LivoxRing.RingDelivers: accesses are sequentially consistent, and two producers racing on one ring are not modelled.
- LivoxHandoff.NoLostWakeup: storing and popping are single steps, which LivoxRing justifies for one producer; the publisher format that pops nothing under ROS 2 and shutdown are left out.
- The IMU hand-off of the Livox driver: the same protocol with an unbounded list.
- VisualPoints.VisualPoint.Rescore: the normalised cross-correlation that produces the scores is a parameter, including its use of an uninitialised mean; a score is a number or none, and rounding is not modelled.
- The uninitialised reference pointer of a new visual point is modelled as null.
- Image warping, photometric Jacobians, feature scoring and the grid of visual points.
