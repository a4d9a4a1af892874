# Verified models of gem5 routing and tooling

Dafny models of parts of gem5, with proofs about them. Nothing here executes gem5.
`dafny verify dfyconfig.toml` verifies the whole project.

* **Mesh networks** (`ShortestPath`, `RoutingTable`, `Mesh`, `MeshRouting`, `MeshDeadlock`, `MeshSystem`,
  `MeshReach`, `MeshPorts`): the generators `Mesh_XY.py` and `Mesh_westfirst.py`, the all-pairs shortest-path loop of
  `Topology.cc`, and the table lookup and the port names of `RoutingUnit.cc`, from options to delivered packets. For
  every mesh, destination and random choice, packets take shortest routes, forbidden turns do not happen, and the
  channel dependency relation has no cycle. `Topology.cc` writes 10000 for a missing link, so a table knows a
  destination exactly when its weighted distance is at most 10000.
* **Pipeline viewer** (`PipeQueue`, `PipeOrder`, `PipeTimeline`, `PipePicture`, `PipeLetters`): the
  sliding-window sort of `o3-pipeview.py`, with the exact condition on a trace for output in order, and the text of
  the timeline, letter by letter, for any ticks.
* **Checkpoint upgrader** (`Scheduler`, `Timetable`, `Registry`, `LegacyUpgrade`): the migration loop of
  `cpt_upgrader.py` with upgraders and downgraders, independent of iteration order, and the whole way from script files
  and a legacy version number to the upgraded tags.
* **Port binding** (`PortBinding`, `PortOrder`): the single pass of `read_config.py`; sound, and it succeeds exactly under
  a condition on the listed ports and their order.
* **Traces** (`Framing`, `TraceText`, `Decimal`): framing and text form, with exact round-trip conditions.
* **Checkpoint aggregator** (`Aggregator`, `Aggregation`): renaming, relocation and padding, from the checkpoints to the
  merged one; relocated addresses lead to the bytes they led to.
* **Nested clusters** (`Cluster`) and **periodic checkpoints** (`Checkpointing`).

`Division` holds facts about quotients with a variable divisor; `Strings` holds the order of strings; `Options`
and `Bytes` hold shared types.

Where the code and its comments disagree, the model follows the code:

* `cpt_upgrader.py:60-65` says that depending on a tag with a downgrader asks for its removal. The code asks for its
  presence (`Timetable.DowngradeNotFirst`). `Timetable.FinishesIffLevelled` says exactly when a run finishes.
* `read_config.py:321-330` says that sorting makes one entry of every pair bindable, with an example that is not in
  sorted order. `PortBinding.LegalOrderMissed` is a counterexample; `PortOrder.BindSucceedsExactly` is exact, and
  `PortOrder.SortingSuffices` is the case in which the comment is right.
* `o3-pipeview.py:51-52` says that instructions further out of order than `min_threshold` will appear out of order.
  They need not (`PipeOrder.ShortTracesInOrder`); `PipeOrder.InOrderIff` is exact.
* The mesh generators name no size limit. Beyond the limit packets are not misrouted: the lookup stops
  (`MeshRouting.SomeRouteIff`, `MeshReach.AllReachableIff`, `MeshReach.SendAlongRow`).

## Model

| member | source | states |
|---|---|---|
| `ShortestPath.Relax` | gem5/src/mem/ruby/network/Topology.cc:231-244 | the least relaxation of an entry over all intermediate switches, and a switch that attains it |
| `ShortestPath.RelaxEntry` | gem5/src/mem/ruby/network/Topology.cc:229-252 | an entry that is written makes the sum of all entries smaller; one that is not already satisfies the triangle inequality |
| `ShortestPath.Sweep` | gem5/src/mem/ruby/network/Topology.cc:227-255 | a sweep without a change certifies the triangle inequality everywhere; one with a change makes the sum smaller, so the loop ends |
| `ShortestPath.ReplayRealized` | gem5/src/mem/ruby/network/Topology.cc:229-252 | after any sequence of in-place relaxations, in any order, every entry is the weight of some walk |
| `ShortestPath.ExtendShortestPath` | gem5/src/mem/ruby/network/Topology.cc:220-256 | terminates with the closure of the weight matrix: triangle inequality, and every entry realized by a walk |
| `ShortestPath.ClosureIsLeast` | gem5/src/mem/ruby/network/Topology.cc:258-265 | no walk is lighter than the computed distance |
| `RoutingTable.ComputedDistance` | gem5/src/mem/ruby/network/Topology.cc:120-147 | with 10000 standing for "no link": a computed distance is at most 10000, at most the weight of every walk of links, and attained by a walk of links when below 10000 |
| `RoutingTable.LightestWalkServes` | gem5/src/mem/ruby/network/Topology.cc:267-273 | the first link of a walk as light as the computed distance passes the shortest-path test |
| `RoutingTable.RouteExistsIff` | gem5/src/mem/ruby/network/Topology.cc:267-273 | for any topology, some link of a switch leads to a destination exactly when a walk of links of weight at most 10000 does |
| `RoutingTable.ShortestPathToNode` | gem5/src/mem/ruby/network/Topology.cc:275-310 | the destination set of a link is exactly the nodes whose shortest paths it lies on |
| `RoutingTable.MakeTable` | gem5/src/mem/ruby/network/Topology.cc:149-158 | the table of a router has one entry for each of its links, in switch order, none missing |
| `RoutingTable.LookupRoutingTable` | gem5/src/mem/ruby/network/garnet2.0/RoutingUnit.cc:68-116 | returns a lightest candidate: the first such one on ordered virtual networks, otherwise number random mod count in table order; fails exactly when no candidate has weight at most 10000 |
| `RoutingTable.LookupMeaning` | gem5/src/mem/ruby/network/garnet2.0/RoutingUnit.cc:88-98 | a lightest candidate of a complete table is a lightest link on a shortest path |
| `RoutingTable.EmptyLookupMeaning` | gem5/src/mem/ruby/network/garnet2.0/RoutingUnit.cc:104-107 | the lookup has no candidate exactly when the destination is out of reach |
| `RoutingTable.RouteStep` | gem5/src/mem/ruby/network/garnet2.0/RoutingUnit.cc:139-173 | one routing decision in any topology: no route exactly out of reach, otherwise a lightest link on a shortest path |
| `Mesh.PlaceControllers` | gem5/configs/topologies/Mesh_XY.py:82-112 | controllers go round the routers in turn and a remainder to router 0; fails exactly when the remainder holds a controller that is not DMA |
| `Mesh.HorizontalLinks` | gem5/configs/topologies/Mesh_XY.py:117-145 | the row loops make exactly the east (west) neighbour pairs, each once, with dense ids |
| `Mesh.VerticalLinks` | gem5/configs/topologies/Mesh_XY.py:147-175 | the column loops make exactly the north (south) neighbour pairs, each once, with dense ids |
| `Mesh.FourDirections` | gem5/configs/topologies/Mesh_westfirst.py:118-172 | the four lists together are the mesh: every neighbour pair once, its weight given by its direction |
| `Mesh.MakeTopology` | gem5/configs/topologies/Mesh_westfirst.py:57-172 | succeeds exactly when no assertion fails; then the network is the mesh of that style, and on an XY mesh every link has the port names of its direction, "East" to "West" and so on, while Mesh_westfirst names none |
| `Mesh.PortNames` | gem5/configs/topologies/Mesh_XY.py:117-175 | a link of an XY mesh to the router one column east is called East at its source and West at its destination, and correspondingly for the other three; links of the west-first mesh have no port names |
| `Mesh.CoordinatesByDivision` | gem5/src/mem/ruby/network/garnet2.0/RoutingUnit.cc:189-195 | remainder and quotient by the number of columns are the column and row of the generators |
| `MeshRouting.BuildLinkMap` | gem5/src/mem/ruby/network/Topology.cc:68-105 | the switch graph has exactly the internal links with their weights, and two links of weight 1 for every external link |
| `MeshRouting.ExternalLinks` | gem5/src/mem/ruby/network/Topology.cc:68-85 | two links of weight 1 for every external link, and nothing else |
| `MeshRouting.WalkAtLeast` | gem5/configs/topologies/Mesh_westfirst.py:118-169 | no walk of links is cheaper than the grid cost of the two routers plus the ejection link |
| `MeshRouting.CheapestWalk` | gem5/configs/topologies/Mesh_westfirst.py:118-169 | some walk of links is exactly that cheap |
| `MeshRouting.MeshDistance` | gem5/src/mem/ruby/network/Topology.cc:145-147 | the distance computed on a generated mesh is grid cost plus one, cut off at 10000 |
| `MeshRouting.RouterServesIff` | gem5/src/mem/ruby/network/Topology.cc:267-273 | a mesh link lies on a shortest path exactly when it leads towards the destination and that is near enough |
| `MeshRouting.NodeServesIff` | gem5/src/mem/ruby/network/Topology.cc:267-273 | an ejection link serves exactly its own node, at its own router |
| `MeshRouting.RoutingFunction` | gem5/src/mem/ruby/network/garnet2.0/RoutingUnit.cc:68-116 | what the table allows at a router, exactly: nothing beyond weighted distance 10000; ejection at the right router; otherwise a lightest productive direction |
| `MeshRouting.SomeRouteIff` | gem5/src/mem/ruby/network/garnet2.0/RoutingUnit.cc:104-107 | the table allows some port exactly when the weighted distance is at most 10000 |
| `MeshDeadlock.ForwardStep` | gem5/configs/topologies/Mesh_westfirst.py:38-46 | every hop either delivers or comes one hop nearer and stays routable |
| `MeshDeadlock.Arrival` | gem5/configs/topologies/Mesh_westfirst.py:38-46 | after k hops every journey is at Manhattan distance minus k, and it ends at its node |
| `MeshDeadlock.Progress` | gem5/configs/topologies/Mesh_westfirst.py:38-46 | a journey that has not arrived can always go on |
| `MeshDeadlock.FirstDirectionFirst` | gem5/configs/topologies/Mesh_westfirst.py:40-41 | whatever the random choices, a journey that heads west at some hop headed west at every hop before; with XY weights the same for east |
| `MeshDeadlock.XYJourneyUnique` | gem5/configs/topologies/Mesh_XY.py:43-44 | with XY weights two journeys from one router to one node agree hop by hop |
| `MeshDeadlock.DependencyClimbs` | gem5/configs/topologies/Mesh_westfirst.py:40-41 | every channel dependency goes up in one fixed order of the channels |
| `MeshDeadlock.NoDependencyCycle` | gem5/configs/topologies/Mesh_XY.py:43-44 | deadlock freedom of both weightings: no chain of channel dependencies comes back to its first channel |
| `MeshSystem.GeneratedGraph` | gem5/src/mem/ruby/network/Topology.cc:51-106 | the switch graph of a generated network is the mesh graph the routing results are about |
| `MeshSystem.NumSwitches` | gem5/src/mem/ruby/network/Topology.cc:111-121 | every switch id on a link is below the result, and the bound is tight |
| `MeshSystem.Solve` | gem5/src/mem/ruby/network/Topology.cc:120-147 | the arrays hold the weight matrix of the links and its closure |
| `MeshSystem.SetUp` | gem5/src/mem/ruby/network/Topology.cc:108-147 | from options to distances: fails exactly when an assertion of the generator does, otherwise yields the routed mesh of the generated network, attachments and links included |
| `MeshSystem.InReachIffNear` | gem5/src/mem/ruby/network/Topology.cc:267-273 | on a mesh, being in reach of the table is being within weighted distance 10000 |
| `MeshSystem.HopOnce` | gem5/src/mem/ruby/network/garnet2.0/RoutingUnit.cc:139-173 | the lookup finds a hop exactly when the node is near enough, and the hop is one the routing function allows |
| `MeshSystem.Advance` | gem5/src/mem/ruby/network/garnet2.0/RoutingUnit.cc:139-173 | along a journey only the first lookup can fail |
| `MeshSystem.Deliver` | gem5/src/mem/ruby/network/garnet2.0/RoutingUnit.cc:139-173 | for every sequence of random numbers, delivery succeeds exactly when the node is near enough, over exactly Manhattan-distance router hops |
| `MeshSystem.OutportComputeXY` | gem5/src/mem/ruby/network/garnet2.0/RoutingUnit.cc:178-232 | east or west while the columns differ, then north or south, each exactly when quotients and remainders say so and the input port is one the assertion admits; that is a direction the XY weights leave open |
| `MeshSystem.XYAgreesWithTable` | gem5/src/mem/ruby/network/garnet2.0/RoutingUnit.cc:159-169 | on an XY mesh, for nodes near enough, the table allows exactly the link the direction-based router takes |
| `MeshSystem.XYAssertionsHold` | gem5/src/mem/ruby/network/garnet2.0/RoutingUnit.cc:206-223 | the input-port assertions hold along every XY route |
| `MeshPorts.PortLeadsTo` | gem5/configs/topologies/Mesh_XY.py:117-175 | on an XY mesh the port of a direction leads to the neighbour in that direction and arrives there at the opposite port |
| `MeshPorts.OneLinkPerPort` | gem5/configs/topologies/Mesh_XY.py:117-175 | a router with a neighbour in a direction has exactly one link under the name of that direction |
| `MeshPorts.OutportNamed` | gem5/src/mem/ruby/network/garnet2.0/RoutingUnit.cc:126-131 | the port index kept for a name: the last link added under it, found exactly when there is one |
| `MeshPorts.PortHop` | gem5/src/mem/ruby/network/garnet2.0/RoutingUnit.cc:178-232 | through the computed port a packet comes one hop nearer, and its next input port passes the assertions there |
| `MeshPorts.HopByName` | gem5/src/mem/ruby/network/garnet2.0/RoutingUnit.cc:178-232 | one router: there is a port of the computed name, and its link leads one hop nearer |
| `MeshPorts.FollowPorts` | gem5/src/mem/ruby/network/garnet2.0/RoutingUnit.cc:178-232 | from options to arrival: on a generated XY mesh a packet that follows computed port names uses links only, fails no assertion, and arrives after exactly Manhattan-distance hops |
| `MeshReach.AllReachableIff` | gem5/src/mem/ruby/network/Topology.cc:42 | on any generated mesh with a controller for every router, every router has a route to every controller exactly when the diameter, in closed form, is below 10000 |
| `MeshReach.SendAcross` | gem5/src/mem/ruby/network/Topology.cc:42 | the same from the options: a packet from the first router to the controller on the last arrives exactly when the diameter is below 10000 |
| `MeshReach.SendAlongRow` | gem5/src/mem/ruby/network/Topology.cc:42 | the limit at actual options: with n routers in one row and a controller each, that packet arrives exactly when n is at most 10000 |
| `PipeQueue.InsertAllSorted` | gem5/util/o3-pipeview.py:153-155 | the sort of the queue orders by sequence number |
| `PipeQueue.RankIsPosition` | gem5/util/o3-pipeview.py:153-155 | the rank of an instruction (smaller numbers, then equal ones that came earlier) is its position in the sort |
| `PipeQueue.SortAfterSort` | gem5/util/o3-pipeview.py:159-169 | sorting the sorted queue again after an arrival is sorting all arrivals once |
| `PipeQueue.FilterMultiset` | gem5/util/o3-pipeview.py:177-187 | the filter keeps every occurrence of a shown instruction and none of a hidden one |
| `PipeQueue.Viewer.constructor` | gem5/util/o3-pipeview.py:53-68 | nothing queued or printed; thresholds 1000 and 2000 unless given |
| `PipeQueue.Viewer.PrintFirst` | gem5/util/o3-pipeview.py:171-188 | takes the front instruction; what is printed stays the filtered list of what was taken |
| `PipeQueue.Viewer.PrintDown` | gem5/util/o3-pipeview.py:170-188 | takes exactly the excess over the threshold, from the front |
| `PipeQueue.Viewer.PrintInsts` | gem5/util/o3-pipeview.py:167-188 | the state becomes the sorted queue drained to the threshold |
| `PipeQueue.Viewer.QueueInst` | gem5/util/o3-pipeview.py:159-164 | appends, and drains to the minimum when the maximum is exceeded |
| `PipeQueue.Viewer.ProcessTrace` | gem5/util/o3-pipeview.py:126-150 | by the end of the file exactly the filtered output of the sliding window is printed |
| `PipeOrder.FeedSizes` | gem5/util/o3-pipeview.py:159-170 | how many instructions wait and are taken depends on the number of arrivals only |
| `PipeOrder.Conservation` | gem5/util/o3-pipeview.py:166-188 | for every trace and all thresholds, exactly the instructions in range are printed, as often as they occur |
| `PipeOrder.PrintedTimes` | gem5/util/o3-pipeview.py:177-187 | an instruction is printed as often as it occurs if it respects every positive bound, ends included, and has retired where only committed ones are wanted; otherwise never |
| `PipeOrder.InOrderIff` | gem5/util/o3-pipeview.py:47-52 | the window puts out a sorted sequence exactly when no instruction arrives behind one already taken, a condition on the trace; then it is the stable sort of the trace |
| `PipeOrder.PrintedInOrderIff` | gem5/util/o3-pipeview.py:171-188 | what is printed is in order exactly when no instruction in range arrives behind one in range that was already taken; others do not matter |
| `PipeOrder.BoundedDisorderSuffices` | gem5/util/o3-pipeview.py:51-52 | instructions at most min_threshold places late come out in order |
| `PipeOrder.ShortTracesInOrder` | gem5/util/o3-pipeview.py:51-52 | a trace of at most max_threshold + 1 instructions comes out in order, however disordered |
| `PipeOrder.ViewTrace` | gem5/util/o3-pipeview.py:53-68 | with the thresholds 1000 and 2000: what is printed, how often, and when it is in order; a trace at most 1000 places out of order, or of at most 2001 instructions, comes out sorted |
| `PipeTimeline.CollectEvents` | gem5/util/o3-pipeview.py:254-263 | the events of a line: every stage with a tick in the window once, sorted by remainder and then by stage name |
| `PipeTimeline.PrintLine` | gem5/util/o3-pipeview.py:264-282 | columns ascend; the line is too wide by one for every collision; every cell stands in its column moved right by the collisions up to it, and all other places hold the ground character |
| `PipeTimeline.NoCollisions` | gem5/util/o3-pipeview.py:268-280 | there is no collision exactly when the columns ascend strictly |
| `PipeTimeline.WindowIff` | gem5/util/o3-pipeview.py:250-259 | a stage is in the window of a line exactly when that is its line, in the wrapped compact form too |
| `PipeTimeline.Geometry` | gem5/util/o3-pipeview.py:227-242 | base tick and number of lines; one line exactly for the compact form |
| `PipeTimeline.TimelineLine` | gem5/util/o3-pipeview.py:250-282 | a line draws exactly the events of its window |
| `PipeTimeline.EmptyLineIff` | gem5/util/o3-pipeview.py:266 | a compact line is without events exactly when no stage has a tick |
| `PipeTimeline.PrintInst` | gem5/util/o3-pipeview.py:191-282 | one line per period; the access to the first event fails exactly when no stage has a tick |
| `PipePicture.ShareColumnIff` | gem5/util/o3-pipeview.py:237-262 | two visible stages fall into one column of one line exactly when they are in one cycle or, in the compact form, a whole line of cycles apart |
| `PipePicture.LineWidthIff` | gem5/util/o3-pipeview.py:268-282 | a line has the requested width exactly when no two of its drawn events share a column, and is never narrower |
| `PipePicture.WidthIffClear` | gem5/util/o3-pipeview.py:250-282 | for any ticks, all lines have the requested width exactly when no two visible stages are placed like that |
| `PipePicture.LineShows` | gem5/util/o3-pipeview.py:264-282 | with such ticks a line has each visible stage in column cycle mod width and dots elsewhere |
| `PipePicture.DrawTimeline` | gem5/util/o3-pipeview.py:227-282 | the same for the timeline of any instruction; every visible stage is on one of the lines |
| `PipeLetters.LastTickIs` | gem5/util/o3-pipeview.py:230-235 | the last event is the greatest of the seven ticks, and of the store tick if stores are shown |
| `PipeLetters.OnLineIff` | gem5/util/o3-pipeview.py:227-259 | a letter is on a line exactly when its tick is set, not before the base tick and in that period, and it is not a dispatch that equals the issue |
| `PipeLetters.LineText` | gem5/util/o3-pipeview.py:250-282 | for any ticks the text of a line: exactly its letters, by place and then by stage name, each in its column moved right by the letters before it that share one, on dots, or on = if the instruction never retired |
| `PipeLetters.ShowInst` | gem5/util/o3-pipeview.py:191-282 | the timeline in terms of ticks and letters: the access to the first event fails exactly when all shown ticks are 0; the number of lines; the text of every line; and if no line is too wide, which is when the ticks are clear, f, d, n, p, i, c, r (and s exactly when stores are shown) stand in line n and column c exactly when that is their line and c is tick / cycle mod width |
| `PipePicture.ClearIff` | gem5/util/o3-pipeview.py:237-253 | for an instruction fetched first, all lines have the requested width exactly when there is one drawn stage per cycle and, in the compact form, none a whole line of cycles after fetch |
| `PipePicture.WholeCyclesClear` | gem5/util/o3-pipeview.py:237-253 | with whole-cycle ticks one drawn stage per cycle is enough |
| `PipePicture.UnalignedTicksCollide` | gem5/util/o3-pipeview.py:259-260 | counterexample: with other ticks, stages of different cycles share a column |
| `Scheduler.ApplyRound` | gem5/util/cpt_upgrader.py:248-250 | in whatever order, a round adds the upgraded tags, removes the downgraded ones, and runs each migration once |
| `Scheduler.ApplyAll` | gem5/util/cpt_upgrader.py:238-252 | final tags and leftover are independent of iteration order; each migration runs at most once, after its dependencies |
| `Scheduler.LeftoverIsGreatestStuck` | gem5/util/cpt_upgrader.py:243-246 | without downgraders, what is left on abort is the greatest set whose members each wait for something inside it or missing |
| `Scheduler.FinishesIffSchedulable` | gem5/util/cpt_upgrader.py:241-252 | without downgraders the loop finishes exactly when some order respects all dependencies |
| `Scheduler.SuccessTags` | gem5/util/cpt_upgrader.py:240-258 | success leaves all upgraded and no downgraded tags, and a second run has nothing to apply |
| `Scheduler.StrandedByDowngrade` | gem5/util/cpt_upgrader.py:140-154 | once a downgraded tag is gone, whatever depends on it stays pending for good |
| `Scheduler.AlreadyDowngradedAborts` | gem5/util/cpt_upgrader.py:60-65 | one way to abort: a pending tag that depends on a downgraded tag the checkpoint no longer has is never applied |
| `Scheduler.RoundSafeIff` | gem5/util/cpt_upgrader.py:242-250 | every order within a round sees its dependencies exactly when nothing in it depends on another tag that the round downgrades |
| `Timetable.TimetableExists` | gem5/util/cpt_upgrader.py:241-252 | every registry and checkpoint, downgraders included, have a timetable: each migration in the first round that finds it ready, the others never ready |
| `Timetable.TimetableUnique` | gem5/util/cpt_upgrader.py:241-252 | there is only one timetable, so rounds do not depend on the order in which sets are iterated |
| `Timetable.LeftoverIsOffTimetable` | gem5/util/cpt_upgrader.py:243-246 | what is left on abort is exactly what is not in the timetable |
| `Timetable.FinishesIffLevelled` | gem5/util/cpt_upgrader.py:241-252 | with upgraders and downgraders alike, the loop finishes exactly when the migrations can be given levels: upgrades before their dependents, downgrades not before theirs |
| `Timetable.DowngradeNotFirst` | gem5/util/cpt_upgrader.py:60-65 | a dependent of a downgraded tag never runs in a later round than the downgrade, and not at all when the tag is absent |
| `Timetable.ScheduleMissed` | gem5/util/cpt_upgrader.py:242-250 | counterexample: an order in which every migration sees its dependencies exists, but the rounds leave one over |
| `Registry.Manager.constructor` | gem5/util/cpt_upgrader.py:89-93 | nothing loaded |
| `Registry.Manager.Load` | gem5/util/cpt_upgrader.py:94-138 | one script extends the indices by tag, kind and version; fails exactly without an upgrader or downgrader |
| `Registry.Manager.LoadScripts` | gem5/util/cpt_upgrader.py:164-165 | all scripts are indexed; fails exactly when one has no method |
| `Registry.Manager.LinkLegacy` | gem5/util/cpt_upgrader.py:167-171 | every linked legacy version depends on exactly its predecessor, others keep their own; fails exactly when version 3 exists without version 2 |
| `Registry.Manager.AllKnown` | gem5/util/cpt_upgrader.py:181-185 | the audit passes exactly when all dependencies are known tags |
| `Registry.Manager.ResolveOne` | gem5/util/cpt_upgrader.py:175-185 | adds the forward dependencies of one script; fails exactly when it names an unknown tag |
| `Registry.Manager.Resolve` | gem5/util/cpt_upgrader.py:173-185 | in whatever dictionary order, dependencies become the declared and the forwarded ones; fails exactly on an unknown tag |
| `Registry.Manager.LinkAll` | gem5/util/cpt_upgrader.py:167-185 | dependences of loaded scripts: fails exactly on a broken legacy chain or an unknown tag |
| `Registry.Manager.LoadAll` | gem5/util/cpt_upgrader.py:160-185 | succeeds exactly on loadable scripts, which then have their declared and forwarded dependencies; otherwise the error is a missing method if there is one, then a broken legacy chain, then an unknown tag |
| `Registry.ConvertVersion` | gem5/util/cpt_upgrader.py:211-218 | a legacy version becomes exactly the tags of versions 2 up to it; a key error exactly when one is missing |
| `LegacyUpgrade.LoadedRulesValid` | gem5/util/cpt_upgrader.py:160-185 | the rules of a loadable registry are valid for the migration loop |
| `LegacyUpgrade.RulesLoaded` | gem5/util/cpt_upgrader.py:160-185 | what loading leaves in its indices are the rules that the script files define |
| `LegacyUpgrade.DeclaresPredecessor` | gem5/util/cpt_upgrader.py:167-171 | a linked legacy version depends on exactly the one before it |
| `LegacyUpgrade.ConvertedIff` | gem5/util/cpt_upgrader.py:216-218 | the converted tags hold a legacy version exactly when it is not later than that of the checkpoint |
| `LegacyUpgrade.ConvertedClosed` | gem5/util/cpt_upgrader.py:216-218 | the converted tags are closed under the dependencies of the legacy chain |
| `LegacyUpgrade.PredecessorRanBefore` | gem5/util/cpt_upgrader.py:241-252 | in any run of the loaded registry a later legacy version runs after the one before it |
| `LegacyUpgrade.LegacyAscending` | gem5/util/cpt_upgrader.py:241-252 | in any such run later legacy versions run in ascending order |
| `LegacyUpgrade.LegacyComplete` | gem5/util/cpt_upgrader.py:241-252 | a successful run applies every later legacy version with an upgrader exactly once |
| `LegacyUpgrade.Migrate` | gem5/util/cpt_upgrader.py:238-258 | the run from converted tags ends well exactly when the migrations can be given levels, with the final tags and the legacy order stated |
| `LegacyUpgrade.UpgradeLegacy` | gem5/util/cpt_upgrader.py:160-258 | from script files and a version number: loading and conversion fail exactly for the stated reasons, and otherwise all of the above holds of the run |
| `PortBinding.SortPermutes` | gem5/configs/example/read_config.py:332 | the sorted list holds the same connections |
| `PortBinding.Increment` | gem5/configs/example/read_config.py:317-341 | counting both ends keeps every counter equal to the ends bound so far |
| `PortBinding.ScanOnce` | gem5/configs/example/read_config.py:331-341 | the counters always count the ends bound so far |
| `PortBinding.BindPorts` | gem5/configs/example/read_config.py:300-346 | the result is that of one pass over the sorted list; raises exactly when the pass does not make half of it |
| `PortBinding.BindSound` | gem5/configs/example/read_config.py:343-354 | without an exception each connection is made from exactly one end, once, and binding in that order gives every end its index |
| `PortBinding.BindSucceedsIff` | gem5/configs/example/read_config.py:321-346 | when every port has one peer, the pass succeeds exactly when some legal order takes one entry per connection from the sorted list |
| `PortBinding.LegalOrderMissed` | gem5/configs/example/read_config.py:321-323 | counterexample: a list with a legal order on which the pass fails |
| `PortOrder.LeqIsTotal` | gem5/configs/example/read_config.py:158-160 | the comparison of connections is total and antisymmetric |
| `PortOrder.LeqIsTransitive` | gem5/configs/example/read_config.py:158-160 | and transitive |
| `Strings.BelowIff` | gem5/configs/example/read_config.py:158-160 | strings are compared as cmp does: a proper prefix, or smaller at the first difference |
| `PortOrder.PortBelowIff` | gem5/configs/example/read_config.py:158-160 | ports are ordered by owner, then by port name, then by index |
| `PortOrder.SortOrders` | gem5/configs/example/read_config.py:332 | the sorted list holds the same connections, ordered by owner, port name and index of the near end and then of the far end |
| `PortOrder.BindSucceedsExactly` | gem5/configs/example/read_config.py:321-346 | bind_ports succeeds exactly when every port has one peer, indices are dense, and each connection can be given one of its ends so that the ends rise along every port vector |
| `PortOrder.SortingSuffices` | gem5/configs/example/read_config.py:321-323 | where the comment holds: if every connection has an end that is alone in its vector, the pass over the sorted list always succeeds |
| `PortOrder.UnsortedFails` | gem5/configs/example/read_config.py:332 | counterexample: without sorting the same pass fails on such a list |
| `PortOrder.BusesBind` | gem5/configs/example/read_config.py:321-346 | a list with two port vectors on which the pass succeeds because owners are compared before port names |
| `Framing.EncodeVarint32` | gem5/util/protolib.py:146-158 | the loop writes the base-128 varint |
| `Framing.ReadByte` | gem5/util/protolib.py:115-117 | the next byte, or none exactly at the end of the file |
| `Framing.DecodeVarint32` | gem5/util/protolib.py:101-129 | reads at most ten bytes, applies the 32-bit mask and sign rule, and tells end of file from too many bytes |
| `Framing.MaskedMeaning` | gem5/util/protolib.py:121-125 | the result agrees with the value modulo 2^32; it is negative exactly for values from 2^63 on, and a read of that size takes the rest of the file |
| `Framing.VarintRoundTrip` | gem5/util/protolib.py:101-158 | the decoder returns the value and consumes exactly its bytes, whatever follows |
| `Framing.PrefixFree` | gem5/util/protolib.py:146-158 | no encoding is the beginning of another |
| `Framing.InFile.Read` | gem5/util/protolib.py:115-140 | up to n bytes, or all that is left when n is negative |
| `Framing.EncodeMessage` | gem5/util/protolib.py:160-166 | appends the frame of the payload |
| `Framing.EncodeAll` | gem5/util/encode_inst_dep_trace.py:150-197 | the messages of a trace are framed one after the other |
| `Framing.DecodeMessage` | gem5/util/protolib.py:131-144 | the next payload and the rest, or a stop at the end, on an error and on length 0 |
| `Framing.DecodeAll` | gem5/util/decode_inst_dep_trace.py:156-158 | the decoding loop yields the payloads up to the first stop |
| `Framing.ReadFrame` | gem5/util/protolib.py:131-166 | a framed payload comes back as it was exactly when it is not empty and shorter than 2^32 bytes |
| `Framing.FramingRoundTripIff` | gem5/util/protolib.py:131-166 | a list of payloads comes back exactly when each is of that kind |
| `TraceText.PrintDeps` | gem5/util/decode_inst_dep_trace.py:194-204 | a comma in front of every dependency |
| `TraceText.PrintHead` | gem5/util/decode_inst_dep_trace.py:160-179 | sequence number, pc, weight and type, with defaults filled in |
| `TraceText.PrintRecord` | gem5/util/decode_inst_dep_trace.py:157-206 | writing field by field produces the line format |
| `TraceText.MemoryLine` | gem5/util/decode_inst_dep_trace.py:157-206 | the line of a load or store, spelled out: number, pc, weight, LOAD or STORE, address, size, flags, delay, then the two dependency lists |
| `TraceText.OtherLine` | gem5/util/decode_inst_dep_trace.py:157-206 | the line of a COMP or INVALID record without optional fields, spelled out, with pc 0 and weight 1 |
| `TraceText.DepsSpelled` | gem5/util/decode_inst_dep_trace.py:194-204 | no dependencies print as nothing, one more as a comma and the number |
| `TraceText.ParseDeps` | gem5/util/encode_inst_dep_trace.py:184-195 | empty items are skipped, all others must be numbers |
| `TraceText.ItemsRoundTrip` | gem5/util/encode_inst_dep_trace.py:184-195 | a printed dependency list parses back |
| `TraceText.ParserSees` | gem5/util/encode_inst_dep_trace.py:151-152 | splitting a printed line yields exactly the printed fields |
| `TraceText.LineRoundTripIff` | gem5/util/encode_inst_dep_trace.py:150-197 | a printed record parses back, with defaults filled in, exactly when memory records have address, size and flags, others have none, and the type is valid |
| `TraceText.StripMeaning` | gem5/util/encode_inst_dep_trace.py:151 | strip takes all blanks off both ends and nothing else |
| `TraceText.TypeNamedIff` | gem5/util/encode_inst_dep_trace.py:158-164 | the four words name the four types, and no other word names one |
| `TraceText.AcceptedIsStable` | gem5/util/encode_inst_dep_trace.py:150-197 | every line the parser accepts gives a record of valid shape, and that record survives printing and parsing |
| `TraceText.PrintTrace` | gem5/util/decode_inst_dep_trace.py:156-206 | the trace is printed record by record |
| `TraceText.TraceRoundTripIff` | gem5/util/encode_inst_dep_trace.py:147-198 | a whole printed trace parses back exactly when every record has that shape |
| `Aggregator.ZfillFacts` | gem5/util/checkpoint_aggregator.py:59-69 | all checkpoint numbers are padded to one width and keep their value |
| `Aggregator.RenameInjective` | gem5/util/checkpoint_aggregator.py:69 | with insertions of one length, inserting after every "cpu" is injective in name and insertion |
| `Aggregator.NewNamesDistinct` | gem5/util/checkpoint_aggregator.py:59-70 | no two cpu sections of any checkpoints get the same new name |
| `Aggregator.RenamedHasCpu` | gem5/util/checkpoint_aggregator.py:68-70 | a renamed section still holds "cpu", so it cannot meet one that was not renamed |
| `Aggregator.CopyPages` | gem5/util/checkpoint_aggregator.py:105-112 | copies the pages in use, or all there is of a short image |
| `Aggregator.CopyImages` | gem5/util/checkpoint_aggregator.py:61-115 | images follow each other, and each base is the number of pages before it |
| `Aggregator.Pad` | gem5/util/checkpoint_aggregator.py:121-129 | whole pages of the character 0 up to the memory size, and not a page more |
| `Aggregator.AggregateMemory` | gem5/util/checkpoint_aggregator.py:61-134 | the merged memory is the copied images followed by exactly that padding |
| `Aggregator.Relocated` | gem5/util/checkpoint_aggregator.py:73-112 | every byte copied from a checkpoint follows the images before it; that is its address plus the base exactly when those images hold all their pages |
| `Aggregator.StretchesDisjoint` | gem5/util/checkpoint_aggregator.py:97-112 | stretches of different checkpoints do not overlap |
| `Aggregator.RangeSizeIff` | gem5/util/checkpoint_aggregator.py:121-134 | range_size is the number of bytes written exactly when every image holds all its pages |
| `Aggregator.Contribute` | gem5/util/checkpoint_aggregator.py:67-92 | the sections a checkpoint contributes, in order; `Aggregation.Aggregate` says what they contain |
| `Aggregator.AggregateConfig` | gem5/util/checkpoint_aggregator.py:61-119 | the contributions of all checkpoints in order, then system and Globals; `Aggregation.Aggregate` says what they contain |
| `Aggregator.MergedNamesDistinct` | gem5/util/checkpoint_aggregator.py:67-92 | if names are distinct within each checkpoint, no two merged sections share a name, and none is system or Globals |
| `Aggregation.HasCpuIff` | gem5/util/checkpoint_aggregator.py:68 | the search finds the names that contain cpu |
| `Aggregation.InsertedAfterFirst` | gem5/util/checkpoint_aggregator.py:69 | the substitution at the first cpu: the digits follow it, what is in front stays, and it goes on behind it |
| `Aggregation.FdMapIff` | gem5/util/checkpoint_aggregator.py:79 | the pattern matches the names that end in workload, one character and FdMap256 |
| `Aggregation.AllFrom` | gem5/util/checkpoint_aggregator.py:61-92 | the merged sections come, in order, from exactly the cpu sections of all checkpoints and, in the last, all but system and Globals |
| `Aggregation.RenamedMoves` | gem5/util/checkpoint_aggregator.py:69-80 | a cpu section keeps every entry but paddr, which moves by the base, and M5_pid, which is the checkpoint number exactly in file descriptor maps |
| `Aggregation.ReadAll` | gem5/util/checkpoint_aggregator.py:61-87 | reading fails exactly on an address of a cpu section or a curTick that is not a number; otherwise the latest tick, or 0 |
| `Aggregation.SetRangeSize` | gem5/util/checkpoint_aggregator.py:134 | range_size is set in the named section and fails exactly when there is none; everything else stays |
| `Aggregation.AddressIsKept` | gem5/util/checkpoint_aggregator.py:72-112 | if all earlier images are full, an address inside its image leads in the merged checkpoint to the same byte |
| `Aggregation.Aggregate` | gem5/util/checkpoint_aggregator.py:44-141 | the whole script: fails exactly on an unreadable number or when the last checkpoint has no system.physmem.store0; otherwise the kept sections in order with their contents, then system and Globals, all with different names; range_size in whole 4096-byte pages, equal to the bytes written exactly when no image is short; and every physical address in a full stretch still leads to its byte |
| `Cluster.Network.constructor` | gem5/configs/topologies/Cluster.py:41-43 | counters start at zero |
| `Cluster.Network.Connect` | gem5/configs/topologies/Cluster.py:91-114 | two links, one in each direction, with the next two ids |
| `Cluster.Network.AddGroup` | gem5/configs/topologies/Cluster.py:86-114 | a nested cluster is built under the next router id and linked to its parent |
| `Cluster.Network.MakeTopology` | gem5/configs/topologies/Cluster.py:78-127 | links and attachments are exactly those the tree asks for, in order; ids are dense; every router but the first has a parent with a smaller id; every controller listed in a cluster hangs on the router of that cluster, and every cluster listed in it is linked to it both ways |
| `Cluster.DirectController` | gem5/configs/topologies/Cluster.py:116-127 | the attachment of a controller listed directly in a cluster is to the router of that cluster, in list order |
| `Cluster.NestedAttachments` | gem5/configs/topologies/Cluster.py:86-89 | a nested cluster is attached as if it stood alone, from the next free router on |
| `Cluster.NestedWires` | gem5/configs/topologies/Cluster.py:86-114 | its inner links come first, then one link from the outer to the inner router and one back |
| `Cluster.UpAndDown` | gem5/configs/topologies/Cluster.py:34-39 | from every router there is a path to the root and one back |
| `Cluster.Connected` | gem5/configs/topologies/Cluster.py:34-39 | any two routers are joined by a path of links |
| `Checkpointing.Simulator.RunTo` | gem5/configs/common/Simulation.py:237-241 | all calls aim at the target; each but the last was ended by a checkpoint request, the last was not |
| `Checkpointing.Simulator.RunPeriod` | gem5/configs/common/Simulation.py:257-261 | why the first and the last call of a period returned, and that there is only one call without a request |
| `Checkpointing.DueInClosedForm` | gem5/configs/common/Simulation.py:231-266 | checkpoint k is due at when + k * period |
| `Checkpointing.Finish` | gem5/configs/common/Simulation.py:251-255 | if the next checkpoint is past maxtick, one call for the ticks that are left ends the run; their number is negative exactly when the time is already past maxtick |
| `Checkpointing.Period` | gem5/configs/common/Simulation.py:256-264 | one period: a call for the whole period to plan, or the end of the run, with one more checkpoint exactly if the interrupted period is carried on to its limit |
| `Checkpointing.MoreCheckpoints` | gem5/configs/common/Simulation.py:249-264 | the loop, from the first checkpoint to the end of the run |
| `Checkpointing.UninterruptedEnd` | gem5/configs/common/Simulation.py:251-255 | a run that nothing interrupts and that has room for more checkpoints ends at maxtick with one call for the ticks after the last checkpoint |
| `Checkpointing.ScriptCheckpoints` | gem5/configs/common/Simulation.py:231-266 | over every run: checkpoints are on schedule, at most max(1, maximum) many, none after maxtick if when is not; every call after the first phase, its start, length and cause, is prescribed; the series ends early only if the next is past maxtick or a call was interrupted, and without interruption the last call is for the ticks from the last checkpoint to maxtick and the run ends there; a negative tick count is passed exactly when when is past maxtick and a second checkpoint is wanted |

## Left out

- Flow control, buffers, virtual channels and allocation in garnet: deadlock freedom is stated as the absence of a cycle of channel dependencies.
- Link latencies and inter-switch counts kept by `extend_shortest_path`: routing does not use them.
- Machine types: controllers are numbered directly, and each message has one destination.
- 32-bit overflow in `Topology.cc`: weights and distances are unbounded; computed distances never exceed 10000.
- MeshSystem.SetUp: requires more than one controller, which `Topology.cc:59` asserts, and distinct controller numbers.
- MeshReach.AllReachableIff: for networks with fewer controllers than routers, where all hang on router 0, only `MeshRouting.SomeRouteIff` is stated.
- `MeshDirCorners_XY.py`, `Pt2Pt.py`, `Crossbar.py`, `CrossbarGarnet.py`, `outportComputeCustom`: only easy members.
- PipeQueue.Viewer.ProcessTrace: starts from the list of retired instructions; trace parsing and the early stop at line 134, whose call has an argument too few, are not modelled.
- PipeTimeline.PrintInst: colours, and the text after the closing bracket, are not modelled.
- Scheduler.LeftoverIsGreatestStuck: stated without downgraders; with them `Timetable.LeftoverIsOffTimetable` holds.
- Scheduler.FinishesIffSchedulable: stated without downgraders; with them it is false (`Timetable.ScheduleMissed`) and `Timetable.FinishesIffLevelled` holds.
- Registry.Manager.Load: requires tags and legacy versions to be used once, as `cpt_upgrader.py:64-65` asks of tags.
- Registry.Manager.LoadScripts: the same.
- Registry.Manager.LoadAll: the same.
- LegacyUpgrade.UpgradeLegacy: the same; checkpoints without a legacy version, which start from a list of tags, go to `Scheduler.ApplyAll` directly.
- cpt_upgrader: bodies of upgraders, wrong-type errors, unknown-tag warning, file handling.
- PortBinding.BindSound: requires that no connection is listed twice or joins a port to itself.
- PortBinding.BindSucceedsIff: also requires one peer per port, and its condition is on the sorted list; `PortOrder.BindSucceedsExactly` needs neither.
- PortOrder.BindSucceedsExactly: requires what BindSound does; a port with two peers or a missing index is covered.
- read_config: reading configurations, and the attribute assignments that carry out a binding.
- Framing.FramingRoundTripIff: payloads of 2^63 bytes and more are excluded; no Python string is that long.
- Framing: contents of payloads, the file header, compression.
- TraceText.LineRoundTripIff: numbers are plain decimal digits within the field widths of the message; signs, blanks and the suffix L that Python's long() also takes are not modelled; strip() takes spaces, tabs, newlines and carriage returns only.
- Aggregation.Aggregate: takes the number of pages of each checkpoint with its image, so a missing or malformed `pagePtr` is not modelled; an error leaves no output, while the script may have written part of it; section names are distinct within a checkpoint, as the parser makes them.
- Aggregator.AggregateConfig: takes `curTick` and the number of pages as parameters, and keeps an address that is no number; `Aggregation.Aggregate` computes the two and fails on the third.
- Cluster.Network.MakeTopology: bandwidths and latencies.
- Checkpointing.ScriptCheckpoints: requires that the run starts no later than `when`; ticks are unbounded; a run has finitely many interruptions; instruction-count checkpoints are not modelled.
- `memtest.py`, `find_copyrights.py`, `repeatSwitch`: would only add easier members.
