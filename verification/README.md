# A verified model of the device monitoring daemon

The daemon watches devices through D-Bus, command line tools and shared memory. Most of it is plumbing;
what is modelled here are the algorithms inside it, in four groups.

- **Device id patterns.** `FPGA_SXM[0|1-8:0-7]_X GPU_[0|1-8]` is parsed into text fragments and integer maps
  routed to the axes of an index tuple (`PatternSyntax`), whose domain is enumerated by decoding one counter in
  mixed radix (`CartesianProducts`, `PatternIndexes`). Names are produced by evaluation and turned back by brute
  force (`Patterns`) or by the digit-capturing inverse of the Python tool (`InversePatterns`).
- **The device association tree**, which is really a graph (`Graphs`, `DeviceTree`): the recursive self-test with
  its pre-inserted report entries (`SelfTests`, `SelftestReport`, `SelftestEntries`), the breadth-first root-cause search
  (`RootCause`), and the traversals down and up (`DatTraversal`).
- **JSON.** The schema checker that collects problems while it computes its verdict (`JsonSchemas`), addresses
  inside documents and patterned documents (`JsonProc`).
- **Protocols.** The device health service with persisted errors, failing writes, failing allocations and
  restarts (`DeviceHealthService`); the thread pool as a machine of atomic steps (`Threadpools`); the spacing of
  D-Bus calls (`DbusDelays`); the bitmap check over the binary digits of a value (`Bits`, `CheckAccessors`).

`Decimals`, `MixedRadix` and `PropertyValues` hold what several groups share. Where the program mutates fields or
loops, the model has classes and methods proved against specification functions or relations; the properties the
design promises are lemmas about those.

Assumptions that appear as hypotheses: readings of accessors during one self-test are a fixed function of device
and accessor; the profile names every device under its own name (`ValidDat`); a pattern's product of axis sizes
stays below 2^32 where completeness of an enumeration is claimed (`Fits`), and what happens otherwise is stated
too; clocks do not go backwards.

## Where the code does not keep what is expected of it

Each of these is a theorem below, with the exact condition under which the expectation does hold.

- `setDbusProperty` of the health service reports success when the method call throws
  (`device-health-service/dbus.cpp:147-158`). A device can therefore be neither up to date nor due for another try:
  `DeviceHealthService.Service.UpdateDeviceHealth` and `DeviceHealthService.ThrowingCallIsSilent`.
- With the build option for the number of errors per device set to 0, a new device enters the error map without an
  update: `DeviceHealthService.Service.InterfacesAdded`, `DeviceHealthService.NoRoomAtAll`.
- The root-cause search follows DEVICE testpoints of the layer `data_dump`, which the self-test before it ignores;
  the look-up in its report may then throw: `RootCause.SearchThrowsIff`, `RootCause.DataDumpEndsSearch`.
- On a cycle the self-test may record a failing device as passing: `SelftestReport.ReportsAreIdealIff`,
  `SelftestReport.PeersSpoilReport`. A DEVICE testpoint whose expected value is empty or "Fail" always passes: `SelftestReport.DeviceTpShowsVerdict`.
- `parentTraverse` has no visited set and does not end below a cycle: `DatTraversal.HandOnEndsIff`,
  `DatTraversal.MutualAssociationClimbsForever`.
- The Python inverse accepts leading zeros and a trailing line feed, which brute-force matching does not:
  `InversePatterns.FastInverseAgreement`, `InversePatterns.LeadingZeroIsInverted`.
- Two brackets with nothing but digits between them make names ambiguous: `InversePatterns.RendersOneToOneIffSeparated`.
- The enumeration of a domain is cut short once its size exceeds 32 bits: `CartesianProducts.EnumerationIsComplete`,
  `CartesianProducts.TwoAxesWrap`.
- Lists such as `1,4`, which the notation foresees, are rejected by the parser: `PatternSyntax.ListsAreRejected`.
- The limit `maxTotal` of the thread pool bounds waiting threads only, and a thread may be turned away while nobody
  waits: `Threadpools.TotalHoldsIff`, `Threadpools.RejectedWithoutWaiters`.

Comments that the code contradicts, where the model follows the code: `childTraverse` does put visited names into
its to-visit list; the upward walk hands on `health`, also as the roll-up; evaluation outside the domain raises a
runtime error and not a domain error; `notBitmask` and `notBitset` are plain negations of `bitmask` and `bitset`,
so they hold for values that are no integers.

## Model

| member | source | states |
|---|---|---|
| SelfTests.Selftest.Perform | src/selftest.cpp:273-387 | Recursive test with the pre-inserted entry, for every report it may start from, cyclic trees and missing devices included: it terminates, leaves exactly the report of the run on values, only adds entries, completes each new one with one result per testpoint of the tested layers, and reports an error exactly when the device itself names a device that does not exist |
| SelfTests.Selftest.TestNested | src/selftest.cpp:341-362 | The verdict for a DEVICE testpoint is a failure exactly if the nested test is new and names a device that does not exist, and otherwise the evaluation of the entry found; the half-built report stays consistent |
| SelfTests.Setup.DanglingFailsOnce | src/selftest.cpp:341-362 | A device that names a missing one fails for the testpoint that leads to it first and passes for every later one, those met while its own test is under way included |
| SelfTests.Setup.UnderWayPasses | src/selftest.cpp:341-362 | A device that is come back to while its test is under way passes, whatever its own testpoints say |
| SelfTests.Selftest.PerformEntireTree | src/selftest.cpp:389-420 | The whole chain of reports, each the outcome of testing one more device on the one before; the walk stops with an error exactly at the first device whose own test reports one |
| SelfTests.Setup.VerdictIsOwn | src/selftest.cpp:203-224 | Whatever the nested results are, the evaluation of a completed entry equals "all non-DEVICE testpoints in tested layers pass" |
| SelftestEntries.OwnPassMeans | src/selftest.cpp:290-331 | The own verdict in terms of readings: every property testpoint of a layer not ignored has a reading, and it equals what is expected, if anything is, as an integer when both are integers and as text otherwise |
| SelftestEntries.EntryVerdict | src/selftest.cpp:203-224 | The verdict on every new entry of a device that names no missing one: it passes exactly if all its own readings do so |
| SelftestEntries.EntryContents | src/selftest.cpp:319-385 | What every new entry holds: a list for each layer, empty if ignored, else one result per testpoint, last one first, with target, severity, reading (or the text for a failed read), expectation and outcome, and the verdict where a device is named |
| SelftestEntries.IdealEntryContents | src/selftest.cpp:319-385 | The same for the entry computed from a device alone, where every named device shows its own verdict |
| SelftestEntries.EntryIff | src/selftest.cpp:280-288 | A device gets an entry by its own test exactly if it is regular or has a testpoint |
| SelftestEntries.FailsMeans | src/selftest.cpp:333-340 | The test of a device reports an error exactly if the device is new and a testpoint of a layer not ignored names a missing one |
| SelftestEntries.EdgeMeans | src/selftest.cpp:319-357 | From a device that names no missing one the test moves on to exactly the devices named by testpoints of layers not ignored |
| SelftestEntries.EntireTreeVerdict | src/selftest.cpp:249-260 | The report of the whole tree passes exactly if every reading of every device does |
| SelfTests.Setup.NestedKeepsUnderWay | src/selftest.cpp:341-385 | A whole nested test, started on a half-built report, leaves that report half-built in the same sense: the invariant of the recursion |
| SelfTests.Setup.Finish | src/selftest.cpp:365-386 | Overwriting the placeholder turns the half-built report into a complete outcome |
| SelfTests.Setup.TreeStep | src/selftest.cpp:389-420 | The outcome of one device's test extends the outcome of the devices tested before it |
| SelftestReport.KeysAreReachable | src/selftest.cpp:273-387 | From an empty report, the devices reported are exactly those reachable through DEVICE testpoints of tested layers, cycles included |
| SelftestReport.VerdictOfNewEntry | src/selftest.cpp:203-224 | The verdict on every newly reported device is the verdict on its own testpoints |
| SelftestReport.VerdictsDoNotDependOnRoot | src/selftest.cpp:273-387 | Verdicts do not depend on the root, on what was reported before or on cycles |
| SelftestReport.ReportIsIdeal | src/selftest.cpp:294-317 | If no failing device lies on a cycle, the cached recursive test leaves exactly the report that evaluates every reachable device by itself |
| SelftestReport.OutcomeIsIdeal | src/selftest.cpp:294-317 | The same for any report to start from whose entries are of that kind |
| SelftestReport.IdealVerdict | src/selftest.cpp:203-224 | The entry computed from a device alone evaluates to the verdict on its own testpoints |
| SelftestReport.AcyclicHasNoFailingCycle | src/selftest.cpp:294-317 | A closed tree without cycles, or whose cycles all pass, has no failing cycle in the sense needed above |
| SelftestReport.FailingCycleSpoilsReport | src/selftest.cpp:294-317 | A failing device named, on a cycle, by a testpoint that expects anything but "Fail" makes its own test leave a different report: it is recorded as passing |
| SelftestReport.ReportsAreIdealIff | src/selftest.cpp:273-387 | Over all devices as roots: every report is the one computed device by device, exactly if there is no such device |
| SelftestReport.PeersSpoilReport | src/selftest.cpp:294-317 | A profile of two devices naming each other on which the report is spoilt |
| SelftestReport.DeviceTpShowsVerdict | src/selftest.cpp:294-317 | The result of a DEVICE testpoint shows the verdict of the device it names, exactly unless the expected value is empty or "Fail" |
| SelftestReport.EntireTreeReport | src/selftest.cpp:249-260 | The report of the whole tree holds the devices that are not skipped or are named by some testpoint, each with its own verdict, and passes exactly if every device passes |
| SelftestReport.WalkKeys | src/selftest.cpp:389-420 | After any number of devices the report holds what was there before and what the unskipped devices so far lead to |
| SelftestReport.EntireTreeErrorIff | src/selftest.cpp:389-420 | The whole test reports an error exactly if some unskipped device that names a missing one is neither in the report before nor led to by an unskipped device before it |
| SelftestReport.EntireTreeIsIdeal | src/selftest.cpp:389-420 | On a closed tree without failing cycles the report of the whole tree is the one computed device by device, in every field of every entry |
| RootCause.DedupMeaning | src/dat_traverse.cpp:292-310 | First occurrences only: same members, no duplicates |
| RootCause.DedupKeepsOrder | src/dat_traverse.cpp:292-310 | Devices stay in the order in which they are first mentioned |
| RootCause.GetTestLayerAssociations | src/dat_traverse.cpp:292-310 | The devices named by the DEVICE testpoints of the chosen layers, in order of first mention |
| RootCause.GetTestLayerSubAssociations | src/dat_traverse.cpp:399-441 | Breadth-first search whose root alone is filtered by event categories: exactly the reachable devices, once each, in non-decreasing distance, and in the order of the queue: found from the first device that names them, and from one device in the order of first mention; throws exactly if the root or a reached device does not exist |
| RootCause.SearchEdgeMeans | src/dat_traverse.cpp:410-421 | Which edges the search follows: those of testpoints of any layer, but for the root those of layers among the event categories if there are any |
| RootCause.QueueOrderUnique | src/dat_traverse.cpp:422-440 | There is only one such order |
| RootCause.SearchIsDetermined | src/selftest.cpp:607-627 | So the search has one result only, ties in distance included |
| RootCause.FindRootCauseGeneral | src/selftest.cpp:607-627 | Scanning that order from its end: a failing device beyond which, in distance, every device passes; the trigger if none fails; an exception exactly at a device without an entry met before any failing one |
| RootCause.SearchFindsFarthest | src/selftest.cpp:607-627 | Any such scan over any breadth-first order yields a result that is described by distances alone |
| RootCause.RootCauseTracer.Process | src/selftest.cpp:650-713 | When an event is refused, when the fixed origin is used, and otherwise the search result over the report of a self-test without data dump |
| RootCause.ReportedVerdict | src/selftest.cpp:650-713 | Every entry of the report that the search reads carries the device's own verdict, also the empty entry of a skipped device |
| RootCause.OriginIsFarthestFailing | src/selftest.cpp:607-627 | The origin found fails and no device strictly farther away fails, or it is the trigger and every reachable device passes |
| RootCause.CoveredIsReported | src/selftest.cpp:650-713 | The report holds the trigger and exactly the devices the self-test reaches |
| RootCause.CoveredNeverThrows | src/selftest.cpp:607-627 | If everything the search reaches is reached by the self-test, the search never meets a missing entry |
| RootCause.SearchThrowsIff | src/selftest.cpp:607-627 | For all readings and on any tree: the search throws exactly if, from the end of its order, a device that the self-test does not reach comes before any that is shown to fail |
| RootCause.ReportShows | src/selftest.cpp:203-224 | Which verdict the report shows on a device, also on trees that name missing devices |
| RootCause.UncoveredThrows | src/selftest.cpp:607-627 | The case in which all devices pass: the search throws whenever it reaches a device that the self-test does not |
| RootCause.NoDeviceInDataDumpCovers | src/selftest.cpp:650-713 | A profile whose data dumps name no device is covered, for every trigger and every event |
| RootCause.DataDumpEndsSearch | src/selftest.cpp:607-627 | A two-device profile on which the search always ends by an exception |
| DatTraversal.FillParents | src/dat_traverse.cpp:93-108 | In-place filling of the parent lists equals, for every device, the list of its holders in key order |
| DatTraversal.ParentsCount | src/dat_traverse.cpp:93-108 | A device occurs among the parents of another as often as that other occurs among its associations |
| DatTraversal.ParentsInOrder | src/dat_traverse.cpp:93-108 | Parents stand in the order in which the devices are gone through |
| DatTraversal.ParentsReverseAssociations | src/dat_traverse.cpp:93-108 | The parent graph is the association graph reversed |
| DatTraversal.ChildTraverse | src/dat_traverse.cpp:502-537 | Depth-first traversal with a predicate: exactly the reachable devices once each, root first; throws exactly if a name without a device is reached |
| DatTraversal.UpwardWalkEndsIff | src/dat_traverse.cpp:570-596 | The walk without a visited set ends exactly if nothing above the device lies on a cycle |
| DatTraversal.AdvanceIsLighter | src/dat_traverse.cpp:570-596 | One round makes the sum of upward path counts over the fringe smaller: the measure of termination |
| DatTraversal.ParentTraverse | src/dat_traverse.cpp:539-597 | Exactly the devices above the start get its health as their roll-up, its tri-state, and the start as origin of condition, and keep their own health; all others keep their whole status |
| DatTraversal.HandedOnToHolders | src/dat_traverse.cpp:502-597 | The devices updated are exactly those whose own downward traversal contains the start |
| DatTraversal.HandOnEndsIff | src/dat_traverse.cpp:539-597 | The update ends exactly if no device whose downward traversal contains the start lies on a cycle of associations |
| DatTraversal.PopulateAndHandOn | src/dat_traverse.cpp:93-108 | Filling in the parents and then handing on, on a tree where no holder of the device lies on a cycle: exactly the devices whose downward traversal contains the device get its health and name, all others keep their status |
| DatTraversal.MutualAssociationClimbsForever | src/dat_traverse.cpp:570-596 | Two devices associated with each other, between which the upward walk never ends |
| CheckAccessors.DecimalReadsBack | src/property_accessor.cpp:234-283 | A decimal numeral is read as the integer it stands for exactly if that fits a signed 64-bit integer, and is plain text otherwise |
| CheckAccessors.NegativeReadsBack | src/property_accessor.cpp:234-283 | A negative numeral is read as its complement to 2^64, down to the least signed 64-bit integer |
| CheckAccessors.HexadecimalReadsBack | src/property_accessor.cpp:234-283 | A numeral with the prefix 0x is read to base 16 |
| CheckAccessors.TrailingTextIsIgnored | src/property_accessor.cpp:234-283 | Text after the digits is ignored |
| CheckAccessors.WordsAndText | src/property_accessor.cpp:234-247 | The six truth words are 1 and 0; text that is empty, has a space or starts like no number is no integer |
| PatternIndexes.PatternIndex.Set | src/device_id.cpp:145-161 | Setting one axis, growing or trimming the tuple, changes that axis only and keeps the tuple canonical |
| PatternIndexes.SetMeans | src/device_id.cpp:145-161 | On the tuple itself: the axis reads the value, or -1 for a negative one, gaps read -1, none is left at the end, and all other axes keep theirs |
| PatternIndexes.PatternIndex.Normalize | src/device_id.cpp:163-176 | Trimming and clamping keep the value on every axis and make the tuple canonical |
| PatternIndexes.CanonicalUnique | src/device_id.cpp:111-119 | Canonical tuples with the same values on all axes are equal |
| PatternIndexes.LessThan | src/device_id.cpp:125-143 | The comparison loop decides by the first axis that differs |
| PatternIndexes.LessIsTotal | src/device_id.cpp:116-143 | On canonical tuples the order is total, irreflexive, and agrees with equality |
| PatternIndexes.LessIsTransitive | src/device_id.cpp:125-143 | The order is transitive |
| CartesianProducts.Product32 | src/device_id.cpp:271-280 | The size computed with 32-bit wrap-around is the product of the axis sizes modulo 2^32 |
| CartesianProducts.Deref | src/device_id.cpp:180-224 | Decoding the counter builds the tuple of its mixed-radix digits |
| CartesianProducts.DomainVec | src/device_id.cpp:436-440 | The enumeration lists the tuples of all counters below the wrapped size |
| CartesianProducts.CounterEnumeratesProduct | src/device_id.cpp:180-224 | The k-th tuple decoded is the k-th element of the recursively defined cartesian product |
| CartesianProducts.CartMeans | tools/device-id-lang/ids.py:296-300 | The cartesian product holds exactly the tuples with one value per axis, from the axis, or -1 where the axis is unrestricted |
| CartesianProducts.CounterOf | src/device_id.cpp:180-224 | Every tuple of the product has a counter below the size that decodes to it |
| CartesianProducts.CounterAscends | src/device_id.cpp:180-224 | Larger counters decode to larger tuples in the order of `operator<`; so decoding is a bijection |
| CartesianProducts.EnumerationIsComplete | src/device_id.cpp:266-280 | The enumeration holds all tuples exactly if the product of the sizes is below 2^32 |
| CartesianProducts.TwoAxesWrap | src/device_id.cpp:266-280 | Two axes of 65536 values each, of which the enumeration lists no tuple |
| Patterns.CalcInputIndexToBracketPoss | src/device_id.cpp:628-647 | In-place table: for each axis up to the largest in use, the brackets routed to it in order |
| Patterns.PositionsAscend | src/device_id.cpp:628-647 | The brackets of an axis are listed in ascending order |
| Patterns.DomainMeaning | src/device_id.cpp:566-626 | An axis accepts a value exactly if every bracket on it maps the value; it is unrestricted exactly if no bracket is on it |
| Patterns.AcceptedIffMapsDefined | src/device_id.cpp:496-520 | The domain check accepts an index exactly if no bracket look-up can fail |
| Patterns.EvalAt | src/device_id.cpp:410-429 | Checking, looking up and streaming piece by piece gives the fragments and decimal outputs by turns |
| Patterns.EvalMeans | src/device_id.cpp:410-429 | Evaluation succeeds exactly if every bracket maps the value on its axis, and joins fragments and decimal mapped values by turns |
| Patterns.EvalIgnoresUnusedAxes | src/device_id.cpp:410-429 | Values on axes without a bracket and beyond the dimension never change the result |
| Patterns.EnumeratedTuple | src/device_id.cpp:180-224 | Every enumerated tuple is canonical, has as many axes as the pattern and is accepted |
| Patterns.Match | src/device_id.cpp:468-480 | The loop collects, in the order of the domain, the tuples that evaluate to the string |
| Patterns.MatchIsPreimage | src/device_id.cpp:468-480 | The result of matching is ascending and, unless the size wraps, the whole preimage of the string |
| Patterns.SameSizeIffOneToOne | src/device_id.cpp:482-489 | A set and its image have the same size exactly if evaluation is one-to-one on it |
| Patterns.InjectiveIffMatchUnique | src/device_id.cpp:482-489 | The comparison of cardinalities holds exactly if matching any string gives at most one index |
| Patterns.DetermineDeviceIndex | src/device_util.cpp:59-69 | The first match, the empty tuple without one |
| Patterns.DeviceIndexRoundTrip | src/device_util.cpp:59-69 | For an injective pattern, matching the evaluation of an index of the domain gives just that index |
| InversePatterns.CaptureSound | tools/device-id-lang/ids.py:447-456 | Captured groups are digit runs that, woven with the fragments, give the string back up to a final line feed |
| InversePatterns.CaptureIsGreedy | tools/device-id-lang/ids.py:447-456 | For any fragments, separated or not: a reading is found whenever there is one, and it is the greediest, group by group |
| InversePatterns.CaptureFindsNumerals | tools/device-id-lang/ids.py:400-402 | If every two brackets are separated by text that is not all digits, greedy capture with backtracking finds the one possible reading |
| InversePatterns.RenderIsInjective | src/device_id.cpp:410-429 | With separators, the rendered string determines all bracket outputs |
| InversePatterns.SeparatedInjectiveIff | src/device_id.cpp:482-489 | With separators, a pattern is injective exactly if no axis has two values that all its brackets map alike, or some axis is empty |
| InversePatterns.OneInjectiveBracketSuffices | src/device_id.cpp:482-489 | One injective bracket on each axis in use makes the pattern injective |
| InversePatterns.RendersOneToOneIffSeparated | src/device_id.cpp:410-429 | The rendered string determines all bracket outputs exactly if every inner fragment contains something else than digits |
| InversePatterns.TwoReadings | src/device_id.cpp:410-429 | For every pattern with an inner fragment of digits only, two different outputs that render alike |
| InversePatterns.DictInv | tools/device-id-lang/ids.py:389-398 | The dictionary loop lists, for every value, exactly the keys that map to it, in order |
| InversePatterns.InvertAt | tools/device-id-lang/ids.py:421-485 | The three stages as carried out, with the exceptions for no bracket, no match and an unknown output |
| InversePatterns.InverseValues | tools/device-id-lang/ids.py:457-485 | The options: bracket outputs raise an exception, bracket inputs turn every tuple into the values of its brackets |
| InversePatterns.BracketsProduceCaptured | tools/device-id-lang/ids.py:457-485 | Each bracket maps the value given for it to the number captured in its place |
| InversePatterns.InversesAgreeOnRendering | tools/device-id-lang/ids.py:421-485 | On the rendering of any outputs, inverting the maps axis by axis and multiplying out equals brute-force matching, as lists |
| InversePatterns.FastInverseAgreement | tools/device-id-lang/ids.py:421-485 | For any string: the exception comes only where nothing matches; otherwise the fast result equals the matches exactly if no number has a leading zero and no line feed was dropped |
| InversePatterns.FastInverseOfName | tools/device-id-lang/ids.py:421-485 | On every name that evaluation produces, the fast inverse is the list of indexes that evaluate to it |
| InversePatterns.LeadingZeroIsInverted | tools/device-id-lang/ids.py:447-456 | For every pattern and outputs: with one more zero before the first number the string is inverted all the same, although nothing evaluates to it |
| PatternSyntax.ToBracketMap | src/device_id.cpp:58-75 | Filling the map key by key gives the constant or the offset map |
| PatternSyntax.MapOfText | src/device_id.cpp:44-75 | The map read from `a-b:c-d` is defined exactly on a..b, constant if c = d, and otherwise shifts by c - a |
| PatternSyntax.SeparateTextAndBracketContents | include/device_id.hpp:881-905 | Splitting at either bracket character: accepted exactly for an odd number of pieces, which alternate between text and contents |
| PatternSyntax.FillImplicitInputPositions | include/device_id.hpp:760-773 | An implicit position becomes the number of the bracket, an explicit one stays, and so does the map |
| PatternSyntax.ConstructPattern | src/device_id.cpp:345-408 | The passes of the constructor together compute the pattern a text denotes, or fail with it |
| PatternSyntax.ParseIndexedText | include/device_id.hpp:588-758 | The contents `p\|a-b:c-d`, with `p\|` and `:c-d` optional, are read back; accepted exactly if ranges ascend, numbers fit an int and the sizes fit together |
| PatternSyntax.SplitWritten | include/device_id.hpp:881-905 | Splitting a text woven from bracket-free pieces gives those pieces back |
| PatternSyntax.ParseUndoesWrite | src/device_id.cpp:345-408 | Parsing the text of any fragments and brackets succeeds exactly if all brackets are well formed, and recovers fragments, positions and maps |
| PatternSyntax.ParsedMeans | src/device_id.cpp:345-408 | What is read: accepted exactly if ranges ascend, numbers fit an int and sizes fit together; then the very fragments, for each bracket the position written or its own number, and a map defined exactly on its range, constant or shifted |
| PatternSyntax.NumberMeans | include/device_id.hpp:588-622 | Which texts are read as numbers, leading zeros and a minus sign before zeros included |
| PatternSyntax.TwoAxesExample | src/device_id.cpp:345-429 | A text with two brackets without positions, read and evaluated |
| PatternSyntax.OneAxisExample | src/device_id.cpp:345-429 | A text with two brackets on one axis, one of them shifting, read and evaluated |
| PatternSyntax.ListsAreRejected | include/device_id.hpp:709-727 | Contents with a comma never parse |
| JsonProc.GetPath | include/json_proc.hpp:344-354 | Walking the chain of stack frames gives the path from the root |
| JsonProc.NodeAtMeans | src/json_proc.cpp:162-201 | Where an address leads: into arrays by index, into objects by key, and nowhere else |
| JsonProc.EvalInto | src/json_proc.cpp:21-66 | Overwriting a copy of the document in place computes the evaluated document, or fails with it |
| JsonProc.EvalKeepsShape | src/json_proc.cpp:21-66 | Evaluation changes nothing but the text of strings |
| JsonProc.EvalCommutesWithAddress | src/json_proc.cpp:162-220 | The same addresses exist before and after, and the node at one is the evaluation of the node before |
| JsonProc.EvalAtAddress | src/json_proc.cpp:21-66 | At every address a string becomes what its pattern evaluates to, arrays keep their length, objects their keys, and everything else stays |
| JsonProc.EvalSucceedsIff | src/json_proc.cpp:21-66 | Evaluation succeeds exactly if every string at every address does |
| JsonProc.EvalTextIsFree | src/device_id.cpp:410-429 | An evaluated string contains no bracket |
| JsonProc.EvalIsIdempotent | src/json_proc.cpp:21-66 | Evaluating the result again, at any index, changes nothing |
| JsonSchemas.RawCheck | src/json_schema.cpp:23-291 | For every schema, document and path: problems are only appended, as the specification lists them, and the verdict is yes exactly if there are none |
| JsonSchemas.CheckAnyOf | src/json_schema.cpp:229-260 | Local collectors, stopping at the first match: on success nothing is reported, otherwise its own problem and those of all alternatives, numbered |
| JsonSchemas.CheckProperties | src/json_schema.cpp:97-112 | Every member is checked by its own or the additional schema, without stopping at the first problem |
| JsonSchemas.CheckItems | src/json_schema.cpp:122-134 | Every item is checked, with its index on the path |
| JsonSchemas.CheckRequired | src/json_schema.cpp:161-180 | One problem for each missing name |
| JsonSchemas.Check | include/json_schema.hpp:49-53 | The verdict is yes exactly if the document satisfies the declarative meaning of the schema, and exactly if nothing was appended |
| JsonSchemas.NoProblemsIffSatisfied | src/json_schema.cpp:23-291 | Problems and declarative meaning, connected for all schemas, documents and paths |
| JsonSchemas.SatisfiesMeans | src/json_schema.cpp:38-92 | What each kind of schema asks of a document, in terms of its constructor, its values and its sub-schemas |
| JsonSchemas.FulfilsMeans | include/json_schema.hpp:192-460 | What each feature asks of an element of its type, and that elements of other types are passed over |
| JsonSchemas.SameValueMeans | src/json_schema.cpp:144-157 | Which values count as equal: numbers whatever their kind, arrays item by item, objects key by key |
| JsonSchemas.ProblemsMean | src/json_schema.cpp:23-260 | What an unsatisfied schema reports: one problem at the element, or that no alternative matches, followed by every problem of every alternative under its number, and no others so numbered |
| JsonSchemas.ProblemsAreInPlace | src/json_schema.cpp:23-291 | Every reported path is an address in the document, and what is said is true of the node there |
| JsonSchemas.ChildInPlace | src/json_proc.cpp:162-206 | What is in place below a child is in place below its parent |
| DeviceHealthService.TmpFileManager.AddError | device-health-service/data_structures.hpp:104-119 | An add cut short at any allocation and retried ends like one clean add; cut short twice it leaves every error set as it was |
| DeviceHealthService.TmpFileManager.AddUnchecked | device-health-service/data_structures.cpp:41-71 | One attempt: refused exactly at the limit, and if cut short at most the empty mapping is new |
| DeviceHealthService.TmpFileManager.RemoveError | device-health-service/data_structures.cpp:73-87 | The error leaves both sets, all or nothing, and the result tells whether it was in one |
| DeviceHealthService.TmpFileManager.GrowRegion | device-health-service/data_structures.cpp:99-143 | Refused exactly if the file would exceed the maximum; the maximum is never exceeded |
| DeviceHealthService.AddedIsBounded | device-health-service/data_structures.cpp:41-71 | Adding, also when cut short, keeps every error set within its limit |
| DeviceHealthService.FindDeviceName | device-health-service/device_health_service.cpp:177-193 | The loop finds the value of the first item that names a device |
| DeviceHealthService.DeviceNameFound | device-health-service/device_health_service.cpp:177-193 | A name is found exactly if an item `DEVICE_NAME=value` has a value, and is the value of the first |
| DeviceHealthService.Service.SetDeviceHealth | device-health-service/dbus.cpp:22-80 | What is reported and what is shown after writing to all objects of a device |
| DeviceHealthService.ThrowingCallIsSilent | device-health-service/dbus.cpp:131-160 | Among writes all reported as done, a failure goes unnoticed exactly if a call threw without taking effect |
| DeviceHealthService.Service.UpdateDeviceHealth | device-health-service/device_health_service.cpp:45-56 | Afterwards the device shows its computed health or is deferred, exactly unless such a failure happened |
| DeviceHealthService.HealthMeans | device-health-service/device_health_service.cpp:97-111 | Critical exactly if some critical error is active, a warning exactly if none is but a warning is, and otherwise OK |
| DeviceHealthService.Service.RetryDeferred | device-health-service/device_health_service.cpp:69-95 | A tick keeps exactly the devices whose writes were reported as failed, settles the others, and stops the timer exactly if none is left |
| DeviceHealthService.Service.InterfacesAdded | device-health-service/device_health_service.cpp:113-249 | The error map changes as the message asks and every known device stays settled; with a limit of 0, exactly if the device was settled before; a refused request changes nothing else and leaves a new device untracked at limit 0 only; a callback that dies leaves one of the listed partial effects and never a new silent failure without a silent write |
| DeviceHealthService.NoRoomAtAll | device-health-service/device_health_service.cpp:214-240 | With a limit of 0, every asserting message to a fresh service leaves a device known but neither shown nor due |
| DeviceHealthService.Service.Startup | device-health-service/device_health_service.cpp:283-298 | With the deferred set lost and the error map kept, every known device is settled again; the deferred ones are exactly those whose writes were reported as failed, the misled ones exactly those whose writes failed silently now, so earlier silent failures are healed |
| DeviceHealthService.Service.Run | device-health-service/device_health_service.cpp:45-298 | For every limit and over every sequence of messages, ticks and restarts with any failures, callbacks that die included: whenever the process is up the known devices are settled, except at limit 0 those asserted since the last restart; without silent writes each settled one is deferred or shows the health that the messages taken amount to, a timer runs while something is deferred, sets and file keep their bounds, and the error map is the replay of the requests, each taken, lost, or cut to an empty mapping, where only a process that is down afterwards fails to take one |
| DeviceHealthService.RefusalTracked | device-health-service/data_structures.cpp:41-71 | A refused request leaves every tracked device tracked, and the device it names settled exactly if it was, unless there is room for some error |
| DeviceHealthService.FatesAreReplay | device-health-service/data_structures.hpp:144-178 | The active errors are those of replaying the requests that were taken; if none was lost the maps are equal |
| DeviceHealthService.AddedAfterMapping | device-health-service/data_structures.cpp:41-97 | Adding after a cut that left the mapping is adding from the start: the outcome of a retry is that of one run |
| DeviceHealthService.ActiveIff | device-health-service/device_health_service.cpp:201-246 | An error is active exactly if a message recorded it, with room at the time, and no later message resolved it |
| DeviceHealthService.HealthTells | device-health-service/device_health_service.cpp:97-111 | The health after any requests with their fates, in terms of which were recorded and not resolved since |
| DeviceHealthService.DecodeMeans | device-health-service/device_health_service.cpp:130-246 | Which messages assert a critical error, assert a warning, or resolve an error, in terms of their fields and the words in them |
| Threadpools.StepKeeps | include/threadpool_manager.hpp:64-96 | Every atomic step of every thread keeps the invariant on permits, counter and admitted threads |
| Threadpools.EveryRunKeeps | include/threadpool_manager.hpp:64-145 | So does every interleaving |
| Threadpools.Safety | include/threadpool_manager.hpp:46-145 | From construction on: permits and acquired guards add up to maxRunning, the counter is the admitted threads and the rejected ones not yet withdrawn, admitted threads never exceed maxTotal, and without active guards the pool is as new |
| Threadpools.CanDrain | include/threadpool_manager.hpp:64-145 | From every such state the threads inside can all leave, and leave the initial state behind |
| Threadpools.TotalIsExceeded | include/threadpool_manager.hpp:64-96 | For all limits, a run with maxRunning running and maxTotal waiting threads at once |
| Threadpools.TotalHoldsIff | include/threadpool_manager.hpp:64-96 | Running and admitted threads together stay within maxTotal in every run exactly if maxRunning is 0 |
| Threadpools.RejectedIff | include/threadpool_manager.hpp:64-77 | A thread is turned away exactly if admitted threads and rejected ones still counted reach maxTotal |
| Threadpools.RejectedWithoutWaiters | include/threadpool_manager.hpp:64-77 | For all limits, a run after which a thread is turned away while no thread waits and none runs |
| Threadpools.ThreadpoolManager.FetchAdd | include/threadpool_manager.hpp:66-77 | The increment and the test of its old value, as one step of the machine |
| Threadpools.ThreadpoolManager.Decrement | include/threadpool_manager.hpp:70-93 | The decrement on each of the three ways out, and the guard it leads to |
| Threadpools.ThreadpoolManager.DropGuard | include/threadpool_manager.hpp:137-145 | Only a guard that acquired releases, and the semaphore never exceeds its capability |
| DbusDelays.DelayIsTight | src/dbus_accessor.cpp:518-527 | The delay in whole milliseconds is never too short and less than a millisecond too long; it is zero exactly once the bound has passed |
| DbusDelays.DbusDelayer.DropStateGuard | src/dbus_accessor.cpp:531-541 | From any state back to idle |
| DbusDelays.DbusDelayer.Call | src/dbus_accessor.cpp:592-626 | However the call ends the delayer is idle, and a call made starts at least the bound after the one before finished |
| DbusDelays.DbusDelayer.CallAll | src/dbus_accessor.cpp:428-626 | Over any sequence of calls and changes of the bound all calls made keep the spacing |
| DbusDelays.SpacedAny | src/dbus_accessor.cpp:508-527 | Any two calls, not just neighbours, keep the bound and do not overlap |
| Bits.ShiftBits | src/check_accessor.cpp:302-304 | Shifting within 64 bits moves binary digits up and loses those beyond the 64th |
| Bits.MaskIncluded | src/property_accessor.cpp:166-175 | `value & mask == mask` exactly if every binary digit set in the mask is set in the value |
| Bits.MaskTouched | src/property_accessor.cpp:140-149 | `value & mask != 0` exactly if they have a digit in common |
| CheckAccessors.Check | src/property_accessor.cpp:78-128 | All entries of a check must hold; an unknown key fails in first place and is passed over elsewhere |
| CheckAccessors.HoldsMeans | src/property_accessor.cpp:78-207 | What each key asks for, in binary digits, occurrence of text, and equality as integers or as text |
| CheckAccessors.CheckAccessor.SubCheckBitmap | src/check_accessor.cpp:277-325 | The walk over the domain asserts ascending positions in order, among the first 64 exactly those whose shifted mask passes; empty data or a bitmap that is no integer asserts nothing; the status becomes passed exactly if a position passed |
| CheckAccessors.DevicesAtEach | src/check_accessor.cpp:303-312 | One asserted device for each passing position, with the name and the index at that place of the domain |
| CheckAccessors.CheckAccessor.CheckBitmapOne | src/check_accessor.cpp:292-313 | A fresh object with the check `{"bitmap":"1"}` over up to 64 devices: it asserts exactly the devices at the set digits of the value, in domain order, and passes exactly if the value modulo 2^n is not zero; a value that is no integer asserts nothing |
| CheckAccessors.BitmapPasses | src/check_accessor.cpp:292-313 | For any bitmap: a position passes exactly if the value is an integer and has every digit of the bitmap that stays within 64 bits after the shift |
| CheckAccessors.BitmapOneReadsDigits | src/check_accessor.cpp:292-313 | For the bitmap "1" over up to 64 devices: the positions asserted are the set digits of the value in ascending order, their powers of two add up to the value modulo 2^n, and the check passes exactly if that is not zero |
| CheckAccessors.NoIntegerNoDevice | src/property_accessor.cpp:166-175 | A value that is no integer asserts no device |

## Left out

- D-Bus calls, subprocesses, files, shared memory, signal subscription, time and logging: they are oracles, parameters or free choices.
- SelfTests.Selftest.Perform: event determination during the test is not modelled.
- RootCause.RootCauseTracer.Process: the update of severities and health, the event's fields and the report generated at the end are not modelled.
- DatTraversal.ChildTraverse: the actions run at each device are not modelled, only which devices they run at.
- DatTraversal.ParentTraverse: the callbacks are those of the health roll-up; other comparators and actions are not modelled, and the walk that does not end is described by `HandOnEndsIff`, not executed.
- DatTraversal.FillParents: the key order of the tree is a parameter.
- Getters such as `getSubAssociations`, `printTree`, `getAssociationConnectedDevices`: weaker versions of the traversals here.
- InversePatterns.CaptureSound: fragments are taken as literal text; the tool inserts them into a regular expression unescaped, so fragments with characters special to it are not covered.
- PatternSyntax.ConstructPattern: numbers are natural numbers up to the largest int; input positions near that limit would need more memory than a machine has for the table of axes.
- `expandDeviceRange`, `determineDeviceName` and the `dictSum` of the Python tool: simple compositions of what is modelled.
- JsonSchemas.RawCheck: problems carry what the message says and not its wording; checks that suit one type of element occur only as features of a schema, as in all schemas of the program; numbers are compared as reals; strings and arrays have less than 2^32 elements.
- JsonProc.EvalInto: an exception carries no text, and the members of an object are visited in the order in which they are listed.
- DeviceHealthService.Service.Run: messages that arrive while the process is down are lost, as signals are; whether the retry timer runs at first is left open; memory allocation may fail at any point, also where in practice it would not.
- DeviceHealthService.Service.SetDeviceHealth: the set of objects of a device is what the look-up returned in the same call; a device is said to show a health only if every one of them does.
- Deserialising the D-Bus message and the log entry id taken from its path, which is used in log texts only.
- Threadpools.ThreadpoolManager.TryAcquireFor: the semaphore may time out at any moment, also with permits left; no time is modelled.
- Threadpools.ThreadpoolManager.constructor: the exceptions on limits that do not fit together are the missing value of `Init`.
- DbusDelays.DbusDelayer.Call: the mutex is modelled by calls following one another.
- CheckAccessors.CheckAccessor.SubCheckBitmap: from position 64 on, where the shift has no defined meaning, any outcome is allowed; the trigger and accessor data kept beside each asserted device, and the check of a single device, are not modelled.
- Case-insensitive look-up, values read from D-Bus variants other than integers and text, and `DataAccessor` equality.
- The events analysis, message composition, report formatting, command line and injection scripts.
