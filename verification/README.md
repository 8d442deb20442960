# GreptimeDB core protocols in Dafny

This project models the parts of GreptimeDB in which several functions have to
agree with one another, and proves that they do, or exactly when they do not.
Each module follows one component:

- `JsonType`, `JsonWire`, `JsonCache`, `JsonMeaning`: the native types of JSON
  values, their protobuf encoding, the type that decoding caches beside a value,
  and what types and messages say about values.
- `TypeWire`, `ValueWire`, `TimeRanges`: column types, values and time ranges on
  the gRPC wire.
- `ProcessRegistry`: the registry of running queries, over every interleaving of
  its steps.
- `PeerSet`: the client's peer list and its background health refresh, over
  every interleaving of refreshes and replacements of the list.
- `FlightStream`: the client's view of one Arrow Flight response, over every way
  of polling it.
- `Credentials`, `Challenge`: credential lines, and the MySQL and SCRAM
  exchanges that use them.
- `LicenseClosure`: the walk that finds the Rust files behind enterprise gates.
- `PartitionBounds`, `TableContext`: the partition bounds and the table model
  that the fuzz tests rely on.

`BTree`, `Text`, `Integers` and `Option` hold what these share. Stateful
components are classes whose methods are proved equal to the steps of a state
machine; the theorems about runs are about that state machine. Pure conversions
are functions with lemmas. `dafny verify dfyconfig.toml` checks the project.

## Main results

- Decoding undoes encoding for every JSON value. Re-encoding a message normalises
  it, and changes nothing exactly when it was normal (`JsonWire.Normaliser`).
- The type cached by decoding equals the type of the value exactly when no
  object without fields shows through (`JsonCache.CachedTypeIsExact`). The
  documentation of `new_with_type` asks for equality always;
  `JsonCache.CachedTypeCanDiffer` names an input where it fails. Both types admit
  the value and are the least that do (`JsonMeaning.InferredIsExact`).
- A column type comes back from the wire unchanged exactly when it holds no null
  or duration type and is in canonical form, native JSON types of any depth
  included (`TypeWire.TypeRoundTrip`). A value of a type the wire can carry comes
  back exactly under `Survives` (`ValueWire.ValueRoundTrip`).
  `TypeWire.StringSizeIsLost` and `ValueWire.DecimalOfDictionary` name a type and
  a value that do not.
- Over every run of the process registry an entry has its ticket, a catalog has
  a ticket, and the gauge counts entries plus queries being registered
  (`ProcessRegistry.RunLeavesNothingBehind`). The processes listed are exactly
  those of the live queries throughout a run if and only if each step meets a
  guard on ids (`ProcessRegistry.ListingExactIffGuarded`). Ids from the counter
  meet it until the 32-bit counter has gone round once, whether a registration
  draws its id or brings the one `next_id` issued to its session
  (`ProcessRegistry.CounterRunServes`). Queries whose context has no process id
  all bring the id 0 (src/session/src/context.rs:579), and two of them at a time
  do not meet it (`ProcessRegistry.CollisionHidesALiveQuery`).
- A run of the peer list keeps a classification of the current peers, made of
  verdicts about these alone and listing each once, if and only if no refresh is
  committed a positive multiple of 2^64 replacements after its snapshot
  (`PeerSet.RunClassifiedExactly`). Such runs are called timely below. Over any
  run the list is the one given last, and verdicts are outcomes of its probes.
- Whatever way a response is polled, the items yielded are a prefix of those the
  messages call for, and once metrics are final all items were yielded and the
  metrics stay as they are (`FlightStream.ConsumerSeesTheResponse`). From the
  schema message on, the consumer gets the record batches of the response
  (`FlightStream.OpenedStreamDelivers`).
- A printed credential line parses back exactly when the user name has no
  separator and the verifier is valid and no plain password with an equals sign
  (`Credentials.LineRoundTrip`). Read back, a printed verifier accepts the honest
  client and, given that the hash has no second preimage, no other
  (`Challenge.PrintedScramAuthenticates`, `Challenge.OnlyHonestProofAccepted`),
  and of plain passwords the one it was made from and no other
  (`Challenge.ScramLoginExactly` and its siblings).
- The licence walk ends, and returns exactly the files reachable from a gated
  declaration and exactly the reachable declarations without a file
  (`LicenseClosure.CollectGatedFiles`). These are the files reachable only
  through gated declarations if and only if no ungated declaration leads around
  the gates (`LicenseClosure.CollectedIsOnlyThroughGates`); one declaration for
  each file and none for a crate root is enough for that.

Where code and documentation differ the model follows the code:

- The head of the licence script speaks of files reachable *only* through gated
  declarations. The walk collects a file reachable through one even if an
  ungated declaration also reaches it, as in `LicenseClosure.OpenFileIsCollected`.
- `new_with_type` asks for an exact type, which decoding an object without
  fields does not give.
- `to_pb_time_ranges` compares the units of neighbouring ranges, so a single
  range whose two ends differ in unit is accepted, and loses a unit.

## Model

| member | source | states |
|---|---|---|
| `JsonType.MergeHead` | src/datatypes/src/types/json_type.rs:94-126 | merging keeps the other side of a null, recurses into arrays and objects, keeps equal types and widens any other pair to `Variant` |
| `JsonType.MergeCommutes` | src/datatypes/src/types/json_type.rs:94-126 | the merge of two native types does not depend on their order, at any depth |
| `JsonType.MergeAssociates` | src/datatypes/src/types/json_type.rs:94-126 | nor on the grouping, nested objects included |
| `JsonType.MergeBounds` | src/datatypes/src/types/json_type.rs:94-126 | null is neutral, `Variant` absorbs, and a type merged with itself is itself, so merging is a join |
| `JsonType.JoinConcat` | src/datatypes/src/json/value.rs:702-719 | merging a sequence of item types is merging the merges of its parts |
| `JsonType.JoinAbsorbs` | src/datatypes/src/json/value.rs:712-717 | once the items seen give `Variant` the rest cannot change the result, which justifies the early exit |
| `JsonType.JoinPermutation` | src/datatypes/src/json/value.rs:702-719 | the item type of an array depends only on the multiset of the items' types |
| `JsonType.ArrayNativeType` | src/datatypes/src/json/value.rs:702-719 | the loop with its early exit computes the merge of all item types |
| `JsonWire.DecodeParts` | src/api/src/helper.rs:938-988 | decoding a message returns the decoded value together with the type inferred from that value |
| `JsonWire.DecodeArray` | src/api/src/helper.rs:948-962 | the one-pass loop over array items builds the items and the merged item type of the result |
| `JsonWire.DecodeObject` | src/api/src/helper.rs:963-982 | the one-pass loop over entries builds the fields and their types; the two stay in step under duplicate keys |
| `JsonWire.DecodeEncode` | src/api/src/helper.rs:902-988 | decoding the encoding of any JSON value gives the value back |
| `JsonWire.EncodeIsNormal` | src/api/src/helper.rs:902-931 | an encoded message has a value at every entry and strictly ascending keys at every object |
| `BTree.LeqByCodePoints` | src/api/src/helper.rs:902-931 | keys are ordered by code points: a prefix first, else by the first difference |
| `JsonWire.NormalIsFixed` | src/api/src/helper.rs:902-988 | re-encoding a decoded normal message gives that message |
| `JsonWire.Normaliser` | src/api/src/helper.rs:902-988 | for any message, re-encoding yields a normal one, is the identity exactly on normal messages, is idempotent and loses nothing decoding sees |
| `JsonWire.DecodedObject` | src/api/src/helper.rs:963-982 | the keys are those of entries with a value, and of duplicates the last one with a value wins |
| `JsonWire.CollectTypes` | src/api/src/helper.rs:963-982 | the map of types and the map of values, collected side by side, have the same keys and matching values |
| `JsonCache.DecodedTypeIsInferred` | src/api/src/helper.rs:938-988 | the type built while decoding is the inference that gives an object without fields the type null |
| `JsonCache.NativeTypeIsInferred` | src/datatypes/src/json/value.rs:684-727 | the type computed from a value is the inference that gives an object without fields an object type |
| `JsonCache.ConflictIsVariant` | src/datatypes/src/types/json_type.rs:94-126 | values of two different kinds at one position make the type there `Variant` under either inference |
| `JsonCache.ArraysGroup` | src/datatypes/src/json/value.rs:702-719 | arrays at one position have as item type the type of all their items taken together |
| `JsonCache.ObjectsGroup` | src/datatypes/src/types/json_type.rs:99-110 | objects at one position have as field types the types of the values found under each key |
| `JsonCache.GroupsAgree` | src/datatypes/src/json/value.rs:684-727 | the two inferences agree on values sharing a position exactly when `Agrees` holds, at any depth |
| `JsonCache.CachedTypeIsExact` | src/datatypes/src/json/value.rs:817-824 | the type cached by decoding is the value's own type if and only if no empty object shows through |
| `JsonCache.CachedTypeCanDiffer` | src/api/src/helper.rs:933-988 | decoding an object without entries caches the type null although the value has an object type |
| `JsonMeaning.MergeDescribes` | src/datatypes/src/types/json_type.rs:94-126 | a type that admits a value still does after merging with any other, on either side |
| `JsonMeaning.InferredIsExact` | src/datatypes/src/json/value.rs:684-727 | the types that admit a value are exactly those at or above the inferred one, for both inferences |
| `JsonMeaning.DecodedTypeDescribes` | src/api/src/helper.rs:938-988 | the type found while decoding admits the value and is the least that does: unsigned, signed and floating numbers apart, items and fields at any depth |
| `JsonMeaning.NativeTypeDescribes` | src/datatypes/src/json/value.rs:684-727 | the type a value computes for itself admits it and is the least that does, with objects counted as objects |
| `JsonMeaning.DecodeMeans` | src/api/src/helper.rs:938-988 | decoding gives the value the message stands for, payload by payload |
| `JsonMeaning.EncodeMeans` | src/api/src/helper.rs:902-931 | encoding gives a message that stands for the value |
| `TypeWire.StructToWire` | src/api/src/helper.rs:496-515 | the loop over struct fields yields the wire form, and fails as soon as one field fails |
| `TypeWire.FailsExactly` | src/api/src/helper.rs:387-542 | a type has no wire form exactly when a null or a duration occurs in it, through native JSON types too |
| `TypeWire.NullOfNative` | src/datatypes/src/types/json_type.rs:128-151 | a native JSON type turns into a concrete type with a null in it exactly when it has one itself |
| `TypeWire.NativeSurvives` | src/datatypes/src/types/json_type.rs:161-192 | every native JSON type is recovered from its concrete form even after that was made canonical |
| `TypeWire.ComesBackCanonical` | src/api/src/helper.rs:90-247 | a type that has a wire form comes back in canonical form |
| `TypeWire.CanonicalFixes` | src/api/src/helper.rs:90-247 | the canonical form equals the type exactly when strings and binaries are plain and struct fields are nullable without metadata |
| `TypeWire.TypeRoundTrip` | src/api/src/helper.rs:90-542 | a type comes back unchanged from the wire if and only if it holds no null or duration and is canonical |
| `TypeWire.StringSizeIsLost` | src/api/src/helper.rs:90-542 | a list of large or view strings is sent, and comes back as a list of plain strings |
| `TypeWire.SentWithItsShape` | src/api/src/helper.rs:387-542 | a scalar type is sent as the column of its kind, width and time resolution |
| `TypeWire.ReadWithItsShape` | src/api/src/helper.rs:90-247 | every scalar column, the old datetime included, is read as a type of its kind, width and resolution; binary with the JSON extension is JSON |
| `TypeWire.ReadWithoutExtension` | src/api/src/helper.rs:90-247 | a column without its own extension is read as the default decimal, an empty vector, null JSON or the null type |
| `TypeWire.DecimalExtensionWraps` | src/api/src/helper.rs:90-247 | precision and scale are cut to eight bits, then checked |
| `TypeWire.NativeGoesByKind` | src/datatypes/src/types/json_type.rs:161-192 | the native type of a scalar goes by its kind whatever its width |
| `TypeWire.NativeScalars` | src/datatypes/src/types/json_type.rs:128-151 | native numbers become 64-bit columns, strings views, variants bytes, and each comes back |
| `TypeWire.NativeFields` | src/datatypes/src/types/json_type.rs:128-151 | an object becomes a struct of nullable fields in ascending order of names |
| `ValueWire.SplitDecimalMeans` | src/common/decimal/src/decimal128.rs:108-110 | the two halves of a 128-bit value are its quotient by 2^64 and its low 64 bits |
| `ValueWire.JoinOfSplitDecimal` | src/common/decimal/src/decimal128.rs:108-123 | joining the halves restores every 128-bit value, negative ones included |
| `ValueWire.UnpackOfPackDayTime` | src/common/time/src/interval.rs:148-158 | packing days and milliseconds into 64 bits loses neither, whatever their signs |
| `ValueWire.ScalarRoundTrip` | src/api/src/helper.rs:735-881 | every scalar, with its width casts, comes back from its wire form |
| `ValueWire.ReadAsDenoted` | src/api/src/helper.rs:735-881 | every scalar message is read as the quantity it denotes: instants in nanoseconds, periods in months, days and nanoseconds, narrow integers modulo their width |
| `ValueWire.SentAsDenoted` | src/api/src/helper.rs:1043-1099 | every scalar is sent as a message that denotes it, never as the old datetime |
| `ValueWire.NestedNeedsItsExtension` | src/api/src/helper.rs:735-881 | a list or struct cannot be read without the extension of its sort |
| `ValueWire.FieldsAreZipped` | src/api/src/helper.rs:735-881 | surplus items or fields of a struct are left out |
| `ValueWire.ItemsRestored` | src/api/src/helper.rs:735-881 | a list of wire values decodes to given items exactly when each one does |
| `ValueWire.FieldsRestored` | src/api/src/helper.rs:735-881 | the same for struct fields, each under the extension of its own field |
| `ValueWire.ListRestored` | src/api/src/helper.rs:735-881 | a list comes back exactly when its item type is canonical and each item comes back |
| `ValueWire.StructRestored` | src/api/src/helper.rs:735-881 | a struct comes back exactly when its type is canonical and each field value comes back |
| `ValueWire.NoDuration` | src/api/src/helper.rs:1043-1099 | a value of a type the wire can carry holds no duration, so the unreachable branch is never entered |
| `ValueWire.ValueRoundTrip` | src/api/src/helper.rs:1043-1099 | a value of a type the wire can carry comes back unchanged if and only if `Survives` holds |
| `ValueWire.DecimalOfDictionary` | src/api/src/helper.rs:735-881 | a decimal from a dictionary column comes back with precision 38 and scale 10, whatever it had |
| `ValueWire.PlainValuesSurvive` | src/api/src/helper.rs:735-881 | every value of a canonical type without dictionaries survives |
| `ValueWire.VectorsToRows` | src/api/src/helper.rs:1029-1041 | the double loop transposes columns into rows of wire values |
| `TimeRanges.WindowsDecide` | src/api/src/helper.rs:1145-1182 | with at least two ranges the pairwise comparison accepts exactly the lists with one unit throughout |
| `TimeRanges.RejectionNamesTwoUnits` | src/api/src/helper.rs:1145-1182 | a rejected list is reported with exactly the units in it, of which there are at least two |
| `TimeRanges.UnitNumbers` | src/api/src/helper.rs:1101-1117 | the number of a unit on the wire is the power of a thousand of its ticks; other numbers are refused |
| `TimeRanges.RangesAtTheEdges` | src/api/src/helper.rs:1119-1182 | no ranges are sent in milliseconds and read whatever the unit; ranges with an unknown unit are refused with its number |
| `TimeRanges.ToPb` | src/api/src/helper.rs:1145-1182 | the conversion sends the first unit with all bounds, or reports mixed units |
| `TimeRanges.RangesRoundTrip` | src/api/src/helper.rs:1119-1182 | a list of ranges comes back unchanged if and only if all its bounds share one unit |
| `TimeRanges.SingleRangeLosesItsUnit` | src/api/src/helper.rs:1145-1182 | a single range from 1 s to 2000 ms is accepted and comes back as 1 s to 2000 s |
| `ProcessRegistry.DeregisterRemovesOne` | src/catalog/src/process_manager.rs:141-149 | deregistering removes the named entry, leaves every other entry as it was, and touches nothing but entries and gauge |
| `ProcessRegistry.DeregisterRemovesEmptied` | src/catalog/src/process_manager.rs:141-149 | deregistering removes a catalog exactly when no entry is left in it |
| `ProcessRegistry.KillRemovesOne` | src/catalog/src/process_manager.rs:236-254 | killing removes the named entry, leaves every other entry as it was, and keeps the catalog even if emptied |
| `ProcessRegistry.StepKeepsEntriesHeld` | src/catalog/src/process_manager.rs:97-294 | every step keeps: an entry belongs to a ticket with its catalog, id and handle, and is not cancelled |
| `ProcessRegistry.StepKeepsCatalogsHeld` | src/catalog/src/process_manager.rs:97-294 | every step keeps: a catalog in the map, even one a kill emptied, is referred to by an undropped ticket |
| `ProcessRegistry.StepKeepsGaugeExact` | src/catalog/src/process_manager.rs:97-294 | every step keeps: the gauge of a catalog is its entries plus the queries constructed but not yet inserted |
| `ProcessRegistry.StepKeepsHandlesFresh` | src/catalog/src/process_manager.rs:97-294 | every step keeps: cancellation handles are issued once and never shared |
| `ProcessRegistry.StepKeepsInv` | src/catalog/src/process_manager.rs:97-294 | every step keeps the four invariants together |
| `ProcessRegistry.RunKeepsInv` | src/catalog/src/process_manager.rs:97-294 | so does every run of any length and interleaving |
| `ProcessRegistry.RunLeavesNothingBehind` | src/catalog/src/process_manager.rs:97-294 | after any run from the empty registry, no ticket means no catalog, and with no query being registered every gauge reads zero |
| `ProcessRegistry.GuardedStepKeepsList` | src/catalog/src/process_manager.rs:97-149 | a step that meets its guard keeps the list equal to the live queries |
| `ProcessRegistry.UnguardedStepBreaksList` | src/catalog/src/process_manager.rs:97-149 | a step that does not meet its guard makes the list differ from the live queries |
| `ProcessRegistry.ListExactIffGuarded` | src/catalog/src/process_manager.rs:97-149 | over any run the entries are those of the live queries after every step if and only if every step meets its guard |
| `ProcessRegistry.CollisionHidesALiveQuery` | src/catalog/src/process_manager.rs:97-149 | two queries registered under one id, such as the default 0: dropping the first ticket hides the second while it is live |
| `ProcessRegistry.CounterStepKeepsIds` | src/catalog/src/process_manager.rs:97-138 | ids from the counter, drawn by a registration or issued to its session before, stay distinct while at most 2^32 have been issued |
| `ProcessRegistry.BringKeepsIds` | src/frontend/src/instance.rs:304-310 | a registration that brings its session's id keeps ids distinct if no other query of the session holds it |
| `ProcessRegistry.CounterRunIsGuarded` | src/catalog/src/process_manager.rs:97-138 | a run that takes its ids from the counter either way meets every guard |
| `ProcessRegistry.CounterRunListsLiveQueries` | src/catalog/src/process_manager.rs:97-167 | in such a run the processes listed are exactly those of the live queries, at the start and after every step |
| `ProcessRegistry.ListedIsShown` | src/catalog/src/process_manager.rs:152-167 | a ticket has its entry in the map exactly when the listing of all catalogs shows its process |
| `ProcessRegistry.ShownIn` | src/catalog/src/process_manager.rs:152-167 | the listing of one catalog shows exactly the tickets of that catalog that the whole listing shows |
| `ProcessRegistry.ListingIsList` | src/catalog/src/process_manager.rs:152-167 | the listing is exact exactly when the entries are |
| `ProcessRegistry.ListingExactIffGuarded` | src/catalog/src/process_manager.rs:97-167 | over any run the processes listed are exactly those of the live queries throughout if and only if every step meets its guard |
| `ProcessRegistry.GuardedRunServes` | src/catalog/src/process_manager.rs:97-254 | at the end of such a run the listing is exact and the disjoint union of the catalogs, and a kill finds, cancels and takes off the list exactly its target |
| `ProcessRegistry.CounterRunServes` | src/catalog/src/process_manager.rs:97-254 | the same for every run with ids from the counter, up to 2^32 of them |
| `ProcessRegistry.KillHitsItsTarget` | src/catalog/src/process_manager.rs:236-254 | with an exact list a kill finds a query exactly when one is live, cancels that one and no other |
| `ProcessRegistry.CatalogOfListed` | src/catalog/src/process_manager.rs:152-167 | listing one catalog is listing all and keeping the processes of that catalog |
| `ProcessRegistry.ListingsPartition` | src/catalog/src/process_manager.rs:152-167 | the listings of the catalogs are disjoint and make up the whole listing |
| `ProcessRegistry.ListedWasRegistered` | src/catalog/src/process_manager.rs:97-167 | at the end of every run a listed process was inserted by the run, with the catalog and query of a registration, and its id if one was brought |
| `ProcessRegistry.ProcessManager.constructor` | src/catalog/src/process_manager.rs:83-91 | a new manager is the empty registry |
| `ProcessRegistry.ProcessManager.IssueNextId` | src/catalog/src/process_manager.rs:136-138 | returns the counter and advances it with wrap-around |
| `ProcessRegistry.ProcessManager.NewProcess` | src/catalog/src/process_manager.rs:97-117 | makes a pending process with a new handle and the given id, or else the next one, and raises the gauge |
| `ProcessRegistry.ProcessManager.InsertProcess` | src/catalog/src/process_manager.rs:119-133 | moves a pending process into the map, displacing an entry of the same id; the ticket is listed and live, and the process listed is the one given |
| `ProcessRegistry.ProcessManager.RegisterQuery` | src/catalog/src/process_manager.rs:97-133 | is the two steps in a row; its ticket is new, listed and live, and the listing of the catalog holds the query as given |
| `ProcessRegistry.ProcessManager.DeregisterQuery` | src/catalog/src/process_manager.rs:141-149 | removes the entry and the catalog it emptied |
| `ProcessRegistry.ProcessManager.Drop` | src/catalog/src/process_manager.rs:267-272 | dropping a ticket deregisters its id, so the ticket is no longer listed |
| `ProcessRegistry.ProcessManager.KillLocalProcess` | src/catalog/src/process_manager.rs:236-254 | reports and cancels exactly a registered query, and changes nothing otherwise |
| `ProcessRegistry.ProcessManager.Cancel` | src/catalog/src/process_manager.rs:236-254 | removes and cancels the entry and lowers the gauge, in any state |
| `ProcessRegistry.ProcessManager.LocalProcesses` | src/catalog/src/process_manager.rs:152-167 | lists exactly the processes of one catalog or of all, each once; where the listing is exact, those of the live queries of that selection |
| `ProcessRegistry.ProcessManager.AllOrOne` | src/catalog/src/process_manager.rs:152-167 | the loop over the catalogs lists each process of the selection once |
| `ProcessRegistry.ProcessManager.CatalogProcesses` | src/catalog/src/process_manager.rs:152-167 | lists exactly the processes of one catalog, each once |
| `PeerSet.VerdictsPartition` | src/client/src/client.rs:183-194 | the fold loses and duplicates no index: healthy and unhealthy indices together are those probed |
| `PeerSet.ClassifiedIsPermutation` | src/client/src/client.rs:165-199 | active followed by inactive lists every index of the current peers once |
| `PeerSet.ClassifiedOnce` | src/client/src/client.rs:165-199 | no peer is both active and inactive |
| `PeerSet.SnapshotCovers` | src/client/src/client.rs:166-176 | a snapshot takes every current peer once with the address stored for it, and indexes in range |
| `PeerSet.GenerationTells` | src/client/src/client.rs:141-150 | generations are equal exactly when the number of replacements between is a multiple of 2^64, so within 2^64 they mean the same list |
| `PeerSet.StepKeepsInv` | src/client/src/client.rs:141-199 | every timely step keeps the classification consistent with the current list |
| `PeerSet.RunKeepsInv` | src/client/src/client.rs:141-199 | so does every timely run, with any number of refreshes in flight |
| `PeerSet.RefreshNeverBlocked` | src/client/src/client.rs:165-176 | a refresh can begin in every such state without indexing out of range |
| `PeerSet.CandidatesInRange` | src/client/src/client.rs:156-163 | a pick is in range, and there is one exactly when there is a peer |
| `PeerSet.RunAddresses` | src/client/src/client.rs:116-150 | at the end of every run the list is the one given last, and the epoch has counted the lists |
| `PeerSet.RunPicksSafely` | src/client/src/client.rs:116-199 | at the end of every timely run the candidates are indices of the list given last, any active peer or else any inactive one, and there are none exactly for an empty list |
| `PeerSet.RunClassifiesByCurrentPeers` | src/client/src/client.rs:116-199 | at the end of every timely run a peer of the list given last is active or inactive by the outcome of a probe of the run of its address, begun since, or active if no refresh was installed |
| `PeerSet.RunWitnessed` | src/client/src/client.rs:165-199 | over any run every verdict in flight or installed is the outcome of a probe of the run |
| `PeerSet.StaleVerdictsExactly` | src/client/src/client.rs:196-199 | a commit installs its verdicts exactly when a multiple of 2^64 replacements lie behind it and changes nothing otherwise; it keeps the classification exactly when that multiple is zero |
| `PeerSet.RunClassifiedExactly` | src/client/src/client.rs:116-199 | over any run the classification is about the current peers throughout if and only if every commit is timely |
| `PeerSet.WrapAroundLeavesNoPeer` | src/client/src/client.rs:141-199 | 2^64 replacements by an empty list during one refresh leave a candidate index and no address |
| `PeerSet.PeerList.constructor` | src/client/src/client.rs:116-139 | all peers start active at generation 0 |
| `PeerSet.PeerList.SetPeers` | src/client/src/client.rs:141-150 | installs the list given, makes all of it active and advances the generation with wrap-around |
| `PeerSet.PeerList.TakeSnapshot` | src/client/src/client.rs:165-176 | begins a refresh with the generation and every peer's current address |
| `PeerSet.PeerList.EndProbe` | src/client/src/client.rs:177-181 | the end of a probe notes its verdict in the refresh and changes nothing in the list |
| `PeerSet.PeerList.CommitRefresh` | src/client/src/client.rs:182-199 | installs the verdicts if the generation is unchanged, otherwise changes nothing; no precondition on timing |
| `PeerSet.PeerList.Fold` | src/client/src/client.rs:183-194 | splits the targets by verdict in their order |
| `PeerSet.PeerList.GetPeer` | src/client/src/client.rs:156-163 | returns the address of an active peer, of an inactive one if none is active, or none exactly without candidates |
| `FlightStream.Cut` | src/client/src/database.rs:326-371 | the position of the first event that ends the stream |
| `FlightStream.PollConserves` | src/client/src/database.rs:326-371 | what one poll of the generator yields, followed by what is left, is what was left before |
| `FlightStream.StepConserves` | src/client/src/database.rs:197-246 | every action of the consumer conserves items, and metrics become final only at the end of the stream |
| `FlightStream.RunConserves` | src/client/src/database.rs:197-371 | over any actions the items yielded and those left make up the response, in order |
| `FlightStream.RunSettles` | src/client/src/database.rs:225-246 | metrics are final exactly if the consumer has seen the end |
| `FlightStream.ConsumerSeesTheResponse` | src/client/src/database.rs:197-371 | under every sequence of polls and metric reads: a prefix of the expected items, all of them and the last metrics once final, and nothing changes after |
| `FlightStream.ReadyStaysReady` | src/client/src/database.rs:100-112 | final metrics stay final and unchanged |
| `FlightStream.PollMakesProgress` | src/client/src/database.rs:326-371 | every poll that is not the end consumes an event |
| `FlightStream.PollingEnds` | src/client/src/database.rs:234-243 | polling more often than there are events reaches the end |
| `FlightStream.BatchesAreThePayloads` | src/client/src/database.rs:341-346 | the batches yielded are the record batches received before the ending event, in order |
| `FlightStream.NothingFollowsTheEnd` | src/client/src/database.rs:326-371 | a transport error or an illegal message yields one error and nothing after it |
| `FlightStream.ExpectedReports` | src/client/src/database.rs:326-371 | the items report, one for one and in order, the events up to the end but for waits and well-formed metrics |
| `FlightStream.OnlyTheLastIsFatal` | src/client/src/database.rs:326-371 | read errors and messages out of place come last and exactly when an event ended the response; bad metrics do not end it |
| `FlightStream.FinalMetricsAreTheLast` | src/client/src/database.rs:347-357 | the final metrics are the last well-formed ones before the end, or none |
| `FlightStream.MetricsSoFar` | src/client/src/database.rs:225-228 | metrics asked for at any time are the last well-formed ones among the events read by then |
| `FlightStream.OpenExactly` | src/client/src/database.rs:266-384 | a response is a row count exactly for the two legal message sequences, and a stream exactly if it begins with a convertible schema |
| `FlightStream.RowsExactly` | src/client/src/database.rs:280-314 | after a row count only nothing or one metrics message is accepted, and not both inline and trailing metrics |
| `FlightStream.RefusedExactly` | src/client/src/database.rs:266-384 | each refused response gives exactly the error that its first messages call for |
| `FlightStream.OpenedStreamDelivers` | src/client/src/database.rs:266-384 | a response opened as a stream gives the consumer the record batches after its schema, a prefix of them at any time, and once ready all up to the ending event with the last metrics |
| `FlightStream.MetricsStream.constructor` | src/client/src/database.rs:248-257 | an opened response has no metrics and is not final |
| `FlightStream.MetricsStream.PollNext` | src/client/src/database.rs:234-243 | one poll of the wrapper: conserves items, takes over the metrics at the end, changes nothing once final |
| `FlightStream.MetricsStream.PollGenerator` | src/client/src/database.rs:326-371 | the generator loop, run to its next yield, is the poll function |
| `FlightStream.MetricsStream.CurrentMetrics` | src/client/src/database.rs:225-228 | reading the metrics first takes over those of the source, and cannot change final ones |
| `Credentials.ModeRoundTrip` | src/auth/src/user_info.rs:47-67 | every permission mode parses back from its two-letter name |
| `Credentials.SpellingDecides` | src/auth/src/user_info.rs:40-54 | a mode is read from exactly its three spellings |
| `Credentials.ModeInCapitals` | src/auth/src/user_info.rs:47-54 | capital letters do not matter |
| `Credentials.ValidSizes` | src/auth/src/user_provider.rs:207-262 | the sizes and limits of verifiers: a million iterations, 1024 bytes of salt, hashes of 20 and 32 bytes |
| `Credentials.PrintedFields` | src/auth/src/common.rs:173-211 | the fields of each hashed verifier, in order, after its prefix |
| `Text.HexByte` | src/auth/src/common.rs:173-211 | a byte is written as two lower-case hexadecimal digits, the high one first |
| `Text.HexConcat` | src/auth/src/common.rs:173-211 | and bytes one after the other |
| `Text.HexReads` | src/auth/src/user_provider.rs:207-262 | hexadecimal digits of either case are read alike, and no other character is |
| `Text.DecimalNotation` | src/auth/src/common.rs:180-211 | numbers are written in positional decimal notation |
| `Text.ParseU32Edges` | src/auth/src/user_provider.rs:207-262 | a number may have a plus sign, and one that does not fit 32 bits is refused |
| `Credentials.Pbkdf2TextParses` | src/auth/src/common.rs:180-211 | the printed PBKDF2 fields parse back to the same verifier |
| `Credentials.ScramTextParses` | src/auth/src/common.rs:352-364 | the printed SCRAM fields parse back to the same verifier |
| `Credentials.VerifierRoundTrip` | src/auth/src/user_provider.rs:207-262 | every valid verifier parses back from its text, which holds '=' only for a plain password holding one |
| `Credentials.PrintedLineParses` | src/auth/src/user_provider.rs:456-474 | with a clean user name and a valid verifier the printed line parses back, and is rejected exactly for a plain password with '=' |
| `Credentials.LineRoundTrip` | src/auth/src/user_provider.rs:456-474 | a printed line parses back to user, verifier and mode if and only if the user has no separator, and the verifier is valid and no plain password with '=' |
| `Credentials.AcceptedIsValid` | src/auth/src/user_provider.rs:207-262 | an accepted line holds a verifier within the limits, no plain password with '=', and a user name without separators |
| `Credentials.LineWithoutMode` | src/auth/src/user_provider.rs:456-474 | a line without a mode grants reading and writing, and is accepted exactly if its verifier is |
| `Credentials.LineWithMode` | src/auth/src/user_provider.rs:456-474 | a line with a mode is accepted exactly with a known spelling and a verifier that parses, and gives the user as written |
| `Credentials.LegacyLine` | src/auth/src/user_provider.rs:207-262 | a text without a prefix is a plain password as it stands |
| `Credentials.PlainPrefix` | src/auth/src/user_provider.rs:207-262 | the prefix of a plain password is taken off and nothing else |
| `Credentials.ReprintIsFaithful` | src/auth/src/user_provider.rs:456-474 | reprinting any accepted line gives a line with the same meaning |
| `Credentials.MethodHidesUsers` | src/auth/src/user_provider.rs:476-520 | the Postgres method depends on the set of verifiers and not on the user name; under SCRAM a known user gets their own verifier and an unknown one a mock; a blank name is refused |
| `Challenge.XorUndone` | src/auth/src/common.rs:415-417 | masking bytes twice with the same bytes restores them |
| `Challenge.XorByteIs` | src/auth/src/common.rs:415-417 | a bit of the exclusive or is set exactly where the two bytes differ |
| `Challenge.KeyLabels` | src/auth/src/common.rs:283-298 | the key labels of section 3 of RFC 5802, as octets |
| `Challenge.PreparedAlike` | src/auth/src/common.rs:278-298 | a password that prepares to the same bytes is accepted |
| `Challenge.VerifierFromPassword` | src/auth/src/common.rs:278-298 | a verifier is made exactly for valid parameters, is itself valid, and accepts its password |
| `Challenge.HonestProofAccepted` | src/auth/src/common.rs:332-350 | the proof of section 3 of RFC 5802 is accepted, and answered with the server signature |
| `Challenge.OnlyHonestProofAccepted` | src/auth/src/common.rs:332-350 | if no other key hashes to the stored key, a proof is accepted if and only if it is the honest one |
| `Challenge.AuthMysql` | src/auth/src/common.rs:132-167 | the byte loop decides as the verdict function does, with both length errors |
| `Challenge.HonestScrambleAccepted` | src/auth/src/common.rs:122-171 | the client's scramble is accepted against a plain and against a hashed verifier |
| `Challenge.OnlyHonestScrambleAccepted` | src/auth/src/common.rs:122-171 | if the stored hash has no second preimage, only the honest scramble is accepted |
| `Challenge.MysqlLoginExactly` | src/auth/src/user_provider.rs:306-330 | for a plain and a stored password the honest scramble is accepted and anything else refused, for its length or its content |
| `Challenge.WrongVerifierRefused` | src/auth/src/common.rs:144-150 | a stored hash of the wrong size is reported as such |
| `Challenge.PrintedScramAuthenticates` | src/auth/src/common.rs:352-364 | a SCRAM line made from a password parses, accepts that password and its proof, and has no MySQL exchange |
| `Challenge.PlainLoginExactly` | src/auth/src/user_provider.rs:282-304 | a plain password read back from its line is the only one accepted, if no other has its bytes |
| `Challenge.Pbkdf2LoginExactly` | src/auth/src/user_provider.rs:282-304 | a PBKDF2 line accepts the password it was made from and no other, if no other derives its key |
| `Challenge.ScramLoginExactly` | src/auth/src/user_provider.rs:282-304 | a SCRAM line accepts the password it was made from and no other, if no other gives its stored key |
| `Challenge.PrintedMysqlAuthenticates` | src/auth/src/common.rs:173-178 | a MySQL line made from a password parses, accepts the scramble and refuses every plain password |
| `Challenge.PrintedPbkdf2Authenticates` | src/auth/src/common.rs:180-211 | a PBKDF2 line made from a password parses, accepts the password and has no MySQL exchange |
| `LicenseClosure.CarriedNext` | scripts/check-enterprise-license.py:72-90 | attributes accumulate over blank and comment lines only, so a gate applies to the next declaration |
| `LicenseClosure.GateReachesTheNextItem` | scripts/check-enterprise-license.py:72-90 | a gate holds for a declaration below it exactly if only blank lines and comments lie between |
| `LicenseClosure.ResolveFindsTheModule` | scripts/check-enterprise-license.py:93-103 | a declaration resolves to a file right below the declaring one in the module tree, to `name.rs` before `name/mod.rs`, and to none only if there is none |
| `LicenseClosure.ParseModDecls` | scripts/check-enterprise-license.py:66-90 | the line loop yields exactly the declarations in order, each with whether a gate reaches it |
| `LicenseClosure.RootReached` | scripts/check-enterprise-license.py:111-116 | a gated declaration of a given file is reached |
| `LicenseClosure.NextReached` | scripts/check-enterprise-license.py:129-130 | a declaration in the file of a reached one is reached, gated or not |
| `LicenseClosure.ChainHandled` | scripts/check-enterprise-license.py:118-132 | with nothing pending, the end of every chain of declarations has been dealt with |
| `LicenseClosure.WalkComplete` | scripts/check-enterprise-license.py:118-132 | with nothing pending, the collected sets are exactly the reachable ones |
| `LicenseClosure.Roots` | scripts/check-enterprise-license.py:111-116 | the initial worklist holds exactly the gated declarations of the given files |
| `LicenseClosure.ChildEdges` | scripts/check-enterprise-license.py:129-130 | the edges added for a file are exactly its declarations |
| `LicenseClosure.Visit` | scripts/check-enterprise-license.py:120-130 | one turn of the walk keeps its invariant and makes progress |
| `LicenseClosure.CollectGatedFiles` | scripts/check-enterprise-license.py:106-132 | the walk ends with exactly the reachable files and exactly the reachable declarations without a file |
| `LicenseClosure.OnlyThroughGatesIsCollected` | scripts/check-enterprise-license.py:106-132 | a file of a crate reachable only through gated declarations is collected, if the openly reachable files were given |
| `LicenseClosure.CollectedIsOnlyThroughGates` | scripts/check-enterprise-license.py:17-20 | the collected files of the crates are exactly those reachable only through gated declarations if and only if no crate root is collected and no ungated declaration leads from an openly reachable file into the collected ones |
| `LicenseClosure.OpenFileIsCollected` | scripts/check-enterprise-license.py:17-20 | a module that a library declares behind a gate and a binary beside it declares openly is collected |
| `LicenseClosure.DeclaredOnceIsEnough` | scripts/check-enterprise-license.py:17-20 | if no file has two declarations and no crate root has any, no ungated declaration leads around the gates |
| `PartitionBounds.BoundsSmall` | tests-fuzz/src/ir.rs:112-121 | with room for the step, bound i is i+1 steps above zero |
| `PartitionBounds.BoundsLarge` | tests-fuzz/src/ir.rs:112-121 | without room, bounds that are returned at all do not strictly increase |
| `PartitionBounds.BoundsExactly` | tests-fuzz/src/ir.rs:112-121 | bounds are returned and strictly increase if and only if their number is below the largest value |
| `PartitionBounds.BoundsBeyond` | tests-fuzz/src/ir.rs:112-121 | beyond the range, exactly when the generation does not panic |
| `PartitionBounds.BoundsOfIntegerTypes` | tests-fuzz/src/ir.rs:123-133 | the same for 16, 32 and 64 bits |
| `PartitionBounds.OnePartition` | tests-fuzz/src/ir.rs:251-301 | a value lies in at most one partition of strictly increasing bounds |
| `PartitionBounds.ValueHitsItsPartition` | tests-fuzz/src/ir.rs:251-301 | the value generated for a partition fits its type and lies in that partition and no other |
| `PartitionBounds.ValueIsAtTheEdge` | tests-fuzz/src/ir.rs:251-301 | the value is the largest of the first partition or the least of another, and any value without bounds |
| `TableContext.KeyIndicesExact` | tests-fuzz/src/context.rs:101-112 | the regenerated primary keys are the indices of the key columns, ascending, all of them |
| `TableContext.ExactKeysUnique` | tests-fuzz/src/context.rs:101-112 | no other list of indices has that property |
| `TableContext.WithoutColumnIs` | tests-fuzz/src/context.rs:115-116 | dropping removes exactly the columns of that name and keeps names distinct |
| `TableContext.CastKeepsKind` | tests-fuzz/src/context.rs:142-152 | changing a type touches only default values, and keeps the primary key flag |
| `TableContext.CastValues` | tests-fuzz/src/context.rs:142-152 | the cast succeeds exactly when it does for each default value, and replaces each by its cast |
| `TableContext.ModifiedKeeps` | tests-fuzz/src/context.rs:142-152 | changing a type keeps names, order and key flags, and every other column whole |
| `TableContext.ModifiedColumn` | tests-fuzz/src/context.rs:142-152 | the named column gets the new type and cast defaults, or the operation fails exactly if a cast does |
| `TableContext.SetOptionsKeepKeys` | tests-fuzz/src/context.rs:153-166 | setting options keeps option keys distinct |
| `TableContext.WithoutKeysIs` | tests-fuzz/src/context.rs:167-171 | unsetting removes exactly the options with those keys |
| `TableContext.AlterKeepsWellFormed` | tests-fuzz/src/context.rs:71-173 | every operation that succeeds keeps names and option keys distinct and primary keys exact |
| `TableContext.RunKeepsWellFormed` | tests-fuzz/src/context.rs:71-173 | so does every sequence of operations |
| `TableContext.AddedColumnPlace` | tests-fuzz/src/context.rs:80-99 | a new column is first, last, or right after the first column shown under the given name |
| `TableContext.AlterSucceedsExactly` | tests-fuzz/src/context.rs:71-173 | an operation fails exactly for a taken name, a missing place, a name that is no change, or a failing cast |
| `TableContext.QuotedNeedsQuotes` | tests-fuzz/src/ir.rs:388-394 | a quoted column is found under its name with quotes and not under its bare name |
| `TableContext.AlterLeavesTheRest` | tests-fuzz/src/context.rs:71-173 | each operation changes only the parts of the table it is about |
| `TableContext.LastSetSurvives` | tests-fuzz/src/context.rs:153-166 | after setting options a key has the last value set for it, or its old one |
| `TableContext.SetOptionKeepsPlaces` | tests-fuzz/src/context.rs:153-166 | setting leaves every option in its place; a new key goes to the end |
| `TableContext.WithoutKeysConcat` | tests-fuzz/src/context.rs:167-171 | unsetting keeps the order of the options that stay |
| `TableContext.UnsetRemovesExactly` | tests-fuzz/src/context.rs:167-171 | after unsetting, a key is absent if named and unchanged otherwise |
| `TableContext.RunLookup` | tests-fuzz/src/context.rs:71-173 | after any run of operations a key has the last value set for it since it was last unset, or else its old one |
| `TableContext.DropUndoesAdd` | tests-fuzz/src/context.rs:71-130 | dropping a column just added, at any place, restores the table |
| `TableContext.Table.constructor` | tests-fuzz/src/context.rs:45-63 | a table starts as the given context |
| `TableContext.Table.Alter` | tests-fuzz/src/context.rs:71-173 | the in-place operation is the function on contexts, reports failure exactly, and keeps a well-formed table so |
| `TableContext.Table.RegenerateKeys` | tests-fuzz/src/context.rs:101-112 | the loop computes the key indices |
| `TableContext.Table.CastDefaults` | tests-fuzz/src/context.rs:142-152 | the loop casts every default value or fails |
| `TableContext.Table.SetAll` | tests-fuzz/src/context.rs:153-166 | the loop replaces or appends option by option |

## Left out

- Sockets, timers, task spawning, channel managers and the start flag of the health check: a refresh is its two critical sections and the ends of its probes, in any order.
- Queries of remote frontends, slow query timing and cancellation through a ticket's own handle.
- Retrying of requests, the per-region watermarks inside metrics, and the contents of record batches: a batch and parsed metrics are opaque values, the metrics parser is a parameter.
- Cryptographic primitives, UTF-8, SASLprep and random salts: they are parameters, with the output lengths of the hashes as their only assumed property; comparison in constant time is equality.
- Loading and trimming of credential files, and letters outside ASCII when a permission mode is lower-cased.
- The regular expressions, TOML files and git listing of the licence script: a line comes with its attributes and declaration recognised, and resolving a module is a property of the file tree.
- Repartitioning of a table context, and partition bounds of floating-point and string columns; the bounds are those of a build that checks overflow.
- Protobuf enumeration codes other than the time unit: an unknown code cannot be written in the model. Floating-point values are their bit patterns.
- The rest of the gRPC helper: its builders of column types, size estimates and request names, each a table of one line per case with nothing to relate them to.
- Borrowed and owned JSON variants are one type here; updates in place of `merge` are a function returning the merged type.
- `FromWire` and `FromPb` return `None` where the source panics on a message without the extension it needs.
- ProcessRegistry.ProcessManager.LocalProcesses: does not state an order, because the source iterates a hash map.
- LicenseClosure.CollectGatedFiles: does not state the order of the unresolved declarations or how often one is noted, because the source only reports them.
- TableContext.Table.Alter: leaves the table as it was on failure, where the source consumes the context and a failing cast panics.
- PeerSet.PeerList.GetPeer: requires the candidate indices to be in range, where the source would panic; PeerSet.RunPicksSafely shows when they are.
