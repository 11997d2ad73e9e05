# The EFA and gdrdrv operator, modelled in Dafny

The repository holds a Kubernetes operator and two kubelet device plugins. The operator has two
controllers, one for `EfaDriver` resources and one for `GdrdrvDriver` resources. Each elects one
active resource, sets a finalizer on it, creates child objects (a NodeFeatureRule, Dockerfile
ConfigMaps, Modules, SecurityContextConstraints, a DaemonSet), and deletes them again in reverse
order when the resource goes away. The plugins advertise device files to the kubelet and hand them
to containers.

## How the model is built

**The protocol.** `Protocol.dfy` models the API server as state: an ordered list of custom resources
of each kind, a map of children with labels and owners, and a list of nodes with labels. A controller
is a program counter; each of its API calls is one atomic step that may succeed, be refused, or take
effect and still report an error (a bulk deletion may then also stop half-way). A run is any list of
actions: calls of the two controllers in any interleaving, operator crashes, users creating and
deleting resources and children, and changes of the nodes. The theorems range over all runs.

**The imperative controllers.** `Reconciler.dfy` holds both controllers in the form they are written
in: an object whose methods call the server, change a local copy of the resource, loop over lists and
maps, and keep the backoff map. The class `Cluster` accepts a call only if it is the one the protocol
makes next, so every method is held to the protocol call by call, with arbitrary actions of others
before every call. The two controllers differ in a few branches only and share one class with a `kind`.

**Planning.** `Planning.dfy` has the loops from node labels to kernel and driver versions, selectors
and mappings; `Modules.dfy` proves what the results mean.

**The plugins.** `EfaPlugin.dfy` and `GdrdrvPlugin.dfy` hold `GetDevices` and `Allocate`;
`DeviceIds.dfy` the printed identifiers; `Watch.dfy` the `ListAndWatch` protocol against a directory
that changes while it is being read; `Lifecycle.dfy` the restart loop.

| file | subject |
|---|---|
| `Strings.dfy`, `Api.dfy`, `Planning.dfy`, `Protocol.dfy` | definitions: strings, API objects, node labels, the protocol |
| `Holding.dfy`, `Ownership.dfy`, `Orphans.dfy`, `Election.dfy` | who is the active resource: what every run keeps, what the list order adds, and what happens without it |
| `Custody.dfy`, `References.dfy`, `Deletion.dfy`, `Provenance.dfy` | children, what they refer to, how they go away, which node list a Module was made from |
| `Sides.dfy`, `Interference.dfy` | the two controllers do not disturb each other |
| `Inventory.dfy` | the objects a resource needs and what they say, apart from the order of their creation |
| `Exactness.dfy`, `Healing.dfy`, `Status.dfy`, `Readiness.dfy`, `Backoff.dfy`, `Conditions.dfy` | what one reconcile achieves and reports |
| `Witnesses.dfy` | runs from a fresh installation that reach the states of interest, and that break what the assumptions protect |
| `Reconciler.dfy` | the imperative controllers |
| `Modules.dfy` | selectors and kernel patterns |
| `DeviceIds.dfy`, `EfaPlugin.dfy`, `GdrdrvPlugin.dfy`, `Watch.dfy`, `Lifecycle.dfy` | the device plugins |

## Assumptions

Reads see the latest state and writes of custom resources are checked against the version last read.
A resource's spec does not change, users do not edit status or finalizers, and a child is gone as soon
as it is deleted. NotFound, AlreadyExists and Conflict are reported only when they are true; any other
error may be reported at any time. The operator's finalizer is the only one. Each controller handles
one request at a time.

Few theorems need more. `Ownership.SingleOwner`, `References.ReferencesHold` and
`Custody.NothingOfTheKindIsLeft` say `Ordered`: a new resource is listed behind the one that holds the
finalizer or is claiming it, as it is when new resources come last (`Ownership.AppendIsOrdered`).
`Orphans.InsertAbandonsIff` shows that this is exactly what keeps resources from being abandoned, and
`Witnesses.TwoHoldersShare` that references can break without it. Theorems about both controllers at once
say `Separate`: resources of the two kinds that are on OpenShift name their SecurityContextConstraints
differently, and no driver version ends, behind its dash, in -efa or -efa-kmm-dockerfile.
`Witnesses.SharedConstraintsVanish`, `Interference.ModuleNamesCollideIff` and
`Interference.DockerfileNamesCollideIff` show why.

## What the code does that its design does not say

- Election looks only at resources listed before the requested one, so a resource created ahead of the
  holder makes the holder Ignored with its finalizer set, for good, also after its deletion was requested
  (`Orphans.EarlierCreationOrphans`, `Orphans.AbandonedForever`; `Witnesses.OrphanReachable` gives the run).
- Ignored is for good: a standby is never taken up, also when the active resource is gone
  (`Orphans.IgnoredForever`).
- `Reconcile` returns an error exactly when a write of the custom resource was not accepted
  (`Status.ErroredIff`). A failed list of resources gives an empty list and ends the reconcile without an
  error (`Status.FailedListingEnds`). The error of a failed creation or deletion is overwritten by the
  status write behind it, so it shows up as a condition and not as a returned error
  (`Status.FailedCallIsReported`, `Status.FailureOnlyInStatus`, `Status.TeardownFaithful`); the last error test of `Reconcile` is
  never met.
- The guard behind the creation of the DaemonSet is the reverse of all others: AlreadyExists is reported
  and every other error counts as success, so Ready does not imply the DaemonSet is there
  (`Readiness.ReadyMeansThere`, `Readiness.DaemonSetGuardIff`).
- The gdrdrv controller never waits for node discovery (`Status.GdrdrvNeverWaits`).
- A Module is never updated: it covers the kernels of the node list it was made from, and the kernel of a
  node that joins later only if that list showed it too (`Provenance.ModuleRemembersItsNodes`,
  `Modules.ModuleCoversIff`).
- A kernel minor that is a proper prefix of another, such as 4.1 and 4.18, gives two mappings for some
  releases (`Modules.AtMostOneMappingIff`).
- `Allocate` of the gdrdrv plugin carries a flag over containers (`GdrdrvPlugin.CarriedFlagIff`).
- A host whose name is another's with one more dash can pass its index 0 off on that other host
  (`DeviceIds.HostIsolationIff`).

## Model

| member | source | states |
|---|---|---|
| Ownership.SingleOwner | controllers/efadriver_controller.go:110-151 | in every state of every run at most one resource of a kind has the finalizer, all listed before it are Ignored, and no Ignored resource has it |
| Ownership.AppendIsOrdered | controllers/efadriver_controller.go:112-118 | listing every new resource last meets the condition of the theorems |
| Ownership.InsertKeepsIff | controllers/efadriver_controller.go:112-135 | creating a resource keeps the election sound exactly when it is listed behind the holder and behind a controller's claim under way |
| Orphans.InsertAbandonsIff | controllers/efadriver_controller.go:112-135 | at any moment, a creation leads to an abandoned resource in some continuation iff it is listed ahead of a holder or of a claim under way |
| Orphans.AbandonedForever | controllers/efadriver_controller.go:123-125 | a resource that is Ignored with its finalizer stays so in every later state, deletion requested or not |
| Orphans.EarlierCreationOrphans | controllers/efadriver_controller.go:110-135 | creating any resource ahead of the holder and reconciling the holder abandons the holder for good |
| Witnesses.OrphanReachable | controllers/efadriver_controller.go:110-135 | from a fresh installation, for either kind and any names and specs, a run makes a resource Ready, and four steps later it is abandoned in all continuations |
| Orphans.IgnoredForever | controllers/efadriver_controller.go:123-125 | in every run, in any list order, a resource that was Ignored stays Ignored as long as it is listed, also without an active one, and nothing is built or torn down for it |
| Election.ElectionConverges | controllers/efadriver_controller.go:112-135 | for any list order and any schedule of requests, the first resource not Ignored stays so, is the only one built for, and every other requested one ends Ignored |
| Custody.ChildrenNeedFinalizer | controllers/gdrdrv_controller.go:122-161 | at every call boundary of every run, in any list order and with failures anywhere, a created child's owner is still listed with its finalizer, and its teardown would find the child by name or by the labels it was created with, whatever the nodes look like by then |
| Custody.FinalizerComesOffLast | controllers/efadriver_controller.go:165-176 | when a step of any run takes the finalizer off or takes the resource away, no child that resource owned is left |
| Custody.NothingOfTheKindIsLeft | controllers/efadriver_controller.go:165-176 | with the list in order, no created child of the whole kind is left then |
| Custody.DropsOnlyAtRelease | controllers/efadriver_controller.go:169-176 | the finalizer of a holder is given up by nothing but the write that follows a complete teardown |
| References.ReferencesHold | controllers/efadriver_controller.go:229-250 | over all faulty runs without user deletions: a Module has the ConfigMap it names, a DaemonSet its SecurityContextConstraints on OpenShift, an EFA ConfigMap its NodeFeatureRule, also through half-done teardowns |
| Provenance.RunNeverUpdates | controllers/gdrdrv_controller.go:350-359 | a child that stays there over a run is the same at its end |
| Provenance.ModuleRemembersItsNodes | controllers/gdrdrv_controller.go:215-227 | in every run a created Module is that of a listed resource with the finalizer, with the selector of its spec for one driver version and the mappings of that version's kernels on the node list of one moment |
| Provenance.ModuleCoversItsMoment | controllers/efadriver_controller.go:423-442 | so a created Module covers a release iff some node of one moment of the run, of its driver version, shows the kernel |
| Sides.TurnStaysOnSide | controllers/gdrdrv_controller.go:493-507 | no call of one controller adds, changes or removes an object of the other's side, bulk deletions by label included |
| Interference.InterleavingIsSerial | controllers/gdrdrv_controller.go:203-235 | any interleaving of the calls of the two controllers ends in the state of the serial run |
| Interference.InterleavingsAgree | controllers/efadriver_controller.go:218-251 | two interleavings in which each controller does the same end in the same state |
| Interference.ModuleNamesCollideIff | controllers/gdrdrv_controller.go:352 | the Module name of a driver version can equal that of an EfaDriver exactly when the version, behind its dash, ends in -efa |
| Interference.DockerfileNamesCollideIff | controllers/gdrdrv_controller.go:313-314 | and its ConfigMap name exactly when it ends in -efa-kmm-dockerfile |
| Witnesses.SharedConstraintsVanish | controllers/efadriver_controller.go:332 | for any two resources that format one name for their constraints, a faultless run ends with the EfaDriver Ready and its DaemonSet there without them |
| Witnesses.TwoHoldersShare | controllers/efadriver_controller.go:110-135 | for any two EfaDrivers that format one name for their constraints, a faultless run that lists the second ahead ends with the DaemonSet of the first there without them |
| Deletion.ChildrenOnlyShrink | controllers/efadriver_controller.go:155-177 | once a resource is being deleted and not under construction, no run, in any list order, adds a child to it or changes one |
| Deletion.RequestDooms | controllers/efadriver_controller.go:155-156 | requesting deletion starts that phase unless a construction is under way |
| Deletion.DeletionCompletes | controllers/efadriver_controller.go:540-557 | in any list order, the first undisturbed reconcile of a resource that is being deleted and passes the gate ends within twenty calls with the resource and all it owns gone, and with all created children of its kind gone when it was the only holder |
| Deletion.DeletionIsPrecise | controllers/efadriver_controller.go:540-648 | when that reconcile has ended, exactly the objects named or labelled for the resource are gone, and every other object of the cluster is as it was |
| Deletion.ListedHolder | controllers/efadriver_controller.go:112-135 | with the list in order every resource with the finalizer passes the gate and is the only holder |
| Healing.ReconcileHeals | controllers/efadriver_controller.go:178-251 | at every point of an undisturbed reconcile from any subset of children the old ones are unchanged; when it has ended, what has been added is, key by key, exactly what the resource needs on those nodes and was missing, each object owned, labelled and filled in as intended, and the resource is Ready and still live |
| Healing.ReconcileEnds | controllers/efadriver_controller.go:218-251 | it ends: within 15 steps for an EfaDriver, nine and five per driver version for a GdrdrvDriver, with exactly the needed objects restored as soon as no step is left |
| Healing.HealingRun | controllers/gdrdrv_controller.go:203-235 | from every such state there is a run to that end |
| Inventory.NeededIsWanted | controllers/efadriver_controller.go:229-250 | the plans bring every object needed: for EFA the NodeFeatureRule, the ConfigMap and, iff some node has an EFA device, the Module; for gdrdrv a ConfigMap and a Module for each driver version seen; for both the DaemonSet and, iff openShift is true, the constraints |
| Inventory.WantedIsNeeded | controllers/gdrdrv_controller.go:312-415 | and bring nothing else: every planned object is needed, has the resource as its owner, carries its labels, and a Module names its ConfigMap, selects just the nodes it should and covers just the kernels of its nodes |
| Healing.SecondReconcileOnlyReads | controllers/efadriver_controller.go:196-214 | a reconcile of a Ready, complete resource makes no write call and changes nothing |
| Healing.HealsToFixpoint | controllers/efadriver_controller.go:178-214 | a second reconcile behind a healing one ends within the same bound, makes read calls only and leaves resources and children as they are |
| Status.StatusFaithful | controllers/efadriver_controller.go:178-215 | whatever faults occur, the stored condition is Error iff a step reported failure, else DeviceDiscovery iff it is an EfaDriver and a listed kernel-labelled node lacked its device count, else Ready; a requeue is asked for exactly with DeviceDiscovery |
| Status.GdrdrvNeverWaits | controllers/gdrdrv_controller.go:246-273 | in every state of every run no stored GdrdrvDriver is in DeviceDiscovery, its controller is not about to write that, and none of its reconciles has ended with a requeue |
| Status.ErroredIff | controllers/efadriver_controller.go:99-216 | from any state, under any faults and interference, a reconcile ends with an error iff a write of the custom resource was not accepted in it |
| Status.FailedListingEnds | controllers/efadriver_controller.go:102-108 | a failed listing ends the reconcile like an empty one, without an error |
| Status.FailedCallIsReported | controllers/efadriver_controller.go:165-191 | a call about a child or the nodes leads to the write of Error iff it counts as failed, in creation and in teardown |
| Status.FailureOnlyInStatus | controllers/efadriver_controller.go:187-213 | a creation step that failed leaves the condition Error and the outcome of a success |
| Status.TeardownFaithful | controllers/efadriver_controller.go:155-177 | the reconcile of a resource that is being deleted ends without an error and leaves it listed, as an Error with its finalizer, iff a deletion failed; otherwise it is gone |
| Readiness.ReadyMeansThere | controllers/efadriver_controller.go:532-538 | Ready implies that every object the resource needs on those nodes is there, key by key, but for a DaemonSet whose creation failed on the way |
| Readiness.CreationGuardIff | controllers/efadriver_controller.go:283-286 | from the look-up of a missing object to behind its creation, for each kind of object, each fault and either outcome of a race: an object somebody else created is accepted and any other failure is an Error, except for a DaemonSet, where it is the other way round |
| Readiness.DaemonSetGuardIff | controllers/efadriver_controller.go:532-538 | from the look-up to the stored status, whatever the condition before: Error iff somebody else created the DaemonSet in between and the server says so; Ready with no DaemonSet iff nobody did and the creation was refused |
| Conditions.ConditionMoves | controllers/efadriver_controller.go:123-202 | in every run, a step changes the condition of a resource only to Ignored; to Creating from nothing or Error; to Ready, DeviceDiscovery or Error from none of Error, Ignored and Deleting; to Deleting when it is being deleted, and from there to Error; all but the first with the finalizer set |
| Conditions.WorkIsTold | controllers/efadriver_controller.go:155-186 | in every state, a resource whose stored form the controller works with is Deleting while it is torn down, and live and not an Error while something is built for it |
| Backoff.StoredIsRequeues | controllers/efadriver_controller.go:78-88 | over any history the stored duration is one second times the requeues since the last reset or restart in 64-bit arithmetic, whatever other requests do |
| Backoff.SecondsExactIff | controllers/efadriver_controller.go:83-84 | it is exact if and only if there were at most 9223372036 requeues |
| Backoff.ConsecutiveWaits | controllers/efadriver_controller.go:208-214 | the n waits since a reset total 1 + ... + n seconds |
| Backoff.SumToClosed | controllers/efadriver_controller.go:83 | that is n(n+1)/2 seconds |
| Reconciler.Cluster.Invoke | controllers/efadriver_controller.go:99-216 | a call is accepted only when the protocol makes it next; others act before it, it may fail, and an accepted write has just the effect asked for |
| Reconciler.DriverReconciler.Reconcile | controllers/efadriver_controller.go:99-216 | one request is a run of the protocol from idle to idle; it returns an error iff a write of the resource was not accepted, and a requeue iff the run ended with one, after the stored backoff, hence iff the resource is stored as DeviceDiscovery; the backoff is reset iff the resource passed and neither happened; with nothing going wrong a live resource has just its needed objects restored and a deleted one just its own objects removed |
| Reconciler.DriverReconciler.Attend | controllers/efadriver_controller.go:99-207 | the part of it that talks to the server: who passes, and how the run ended |
| Reconciler.DriverReconciler.Proceed | controllers/efadriver_controller.go:137-207 | an elected resource gets its finalizer and is torn down or built, and the outcome is that of the protocol |
| Reconciler.DriverReconciler.GetRequeueAfter | controllers/gdrdrv_controller.go:63-73 | adds a second to the stored duration of the request, only of that one, and returns it |
| Reconciler.DriverReconciler.Gate | controllers/gdrdrv_controller.go:87-120 | of the resources the server listed, the requested one passes iff it is there, not Ignored and has none but Ignored ones ahead; the one error is a failed write of Ignored |
| Reconciler.DriverReconciler.FindRequested | controllers/efadriver_controller.go:110-119 | the loop finds the requested resource and the last active one listed before it |
| Reconciler.DriverReconciler.AddFinalizer | controllers/efadriver_controller.go:138-151 | the copy that is worked with has the finalizer persisted; a fresh live resource has become Creating, any other keeps its condition |
| Reconciler.DriverReconciler.Retire | controllers/efadriver_controller.go:155-177 | the deletion branch follows the protocol's teardown and fails only on a failed write of the resource |
| Reconciler.DriverReconciler.Maintain | controllers/efadriver_controller.go:178-214 | the live branch builds, writes the status when it changes, and fails only on a failed status write |
| Reconciler.DriverReconciler.Report | controllers/efadriver_controller.go:187-207 | the status is written when it changes, and the outcome follows that write |
| Reconciler.DriverReconciler.CreateCluster | controllers/efadriver_controller.go:218-251 | building ends as the protocol concludes: error, requeue or ready |
| Reconciler.DriverReconciler.CreateGdrdrvCluster | controllers/gdrdrv_controller.go:203-235 | the loop over driver versions in any order follows the protocol |
| Reconciler.DriverReconciler.CreateNFR | controllers/efadriver_controller.go:253-289 | looks the rule up, creates it only when it is missing, tolerates AlreadyExists |
| Reconciler.DriverReconciler.CreateKmmDockerfile | controllers/gdrdrv_controller.go:312-348 | the same for the ConfigMap of a driver version |
| Reconciler.DriverReconciler.CreateKmm | controllers/gdrdrv_controller.go:350-418 | the same for the Module, with selector and mappings computed by the loops; nothing for an EfaDriver without kernels |
| Reconciler.DriverReconciler.CreateDevicePluginScc | controllers/efadriver_controller.go:328-362 | the same for the SecurityContextConstraints, only on OpenShift |
| Reconciler.DriverReconciler.CreateDevicePlugin | controllers/efadriver_controller.go:471-538 | the same for the DaemonSet with the reversed guard |
| Reconciler.DriverReconciler.DeleteCluster | controllers/efadriver_controller.go:540-557 | the teardown goes through the protocol's order and stops at the first error |
| Reconciler.DriverReconciler.DeleteBuilt | controllers/efadriver_controller.go:546-556 | Modules go before the ConfigMaps they name, and those before the rule |
| Reconciler.DriverReconciler.DeleteByName | controllers/efadriver_controller.go:559-577 | a missing object counts as deleted |
| Reconciler.DriverReconciler.DeleteByLabel | controllers/gdrdrv_controller.go:529-555 | Modules and ConfigMaps go by the labels they carry |
| Planning.EfaNodeStatus | controllers/efadriver_controller.go:300-325 | waits iff a kernel-labelled node lacks its device count, else reports exactly the kernels of EFA nodes |
| Planning.CudaNodeStatus | controllers/gdrdrv_controller.go:246-273 | never waits and builds exactly the nested map of driver and kernel versions |
| Planning.BuildSelector | controllers/gdrdrv_controller.go:361-379 | the selector loop keeps every entry of the user's selector but for the labels the controller sets, and gives the selector of `Modules.SelectsIff` |
| Planning.BuildMappings | controllers/efadriver_controller.go:423-442 | one mapping per kernel, whatever the iteration order: those of `Modules.PatternMeaning` and `Modules.ImageTells` |
| Modules.OwnModuleIff | controllers/gdrdrv_controller.go:361-379 | a GPU node that satisfies the resource's selector is selected by its own version's Module iff its version labels are free of dots |
| Modules.ModulesPartition | controllers/gdrdrv_controller.go:361-379 | no node is selected by the Modules of two versions; each contributing node by exactly its own |
| Modules.ModuleMapsItsKernels | controllers/gdrdrv_controller.go:380-391 | a new Module maps every release of the kernel of each of its nodes |
| Modules.EfaModuleMapsItsKernels | controllers/efadriver_controller.go:423-442 | the same for an EfaDriver's Module |
| Modules.ModuleCoversIff | controllers/efadriver_controller.go:423-442 | a Module made from a node list covers a release iff a node of that list contributes its kernel |
| Modules.SelectsIff | controllers/gdrdrv_controller.go:361-379 | for either kind, any node and any spec: a Module selects the node iff the node carries every entry of the user's selector that the controller does not set itself, has the device label, and for gdrdrv has just the three version labels |
| Modules.ImageTells | controllers/gdrdrv_controller.go:387-390 | an image tells the kind, the resource, the kernel and the driver version it is built for, for names without a colon and kernels without a dash |
| Modules.ModulesShareNoImage | controllers/gdrdrv_controller.go:387-390 | the Modules of two driver versions seen on one node list have no image in common |
| Modules.PatternMeaning | controllers/efadriver_controller.go:425-437 | the pattern of M.m matches exactly the releases that start with M.m and, behind it, end in .x86_64 |
| Modules.MappingCount | controllers/efadriver_controller.go:423-442 | distinct kernels give distinct mappings |
| Modules.AtMostOneMappingIff | controllers/efadriver_controller.go:423-442 | no release matches two mappings iff no observed minor is a proper prefix of another of its major |
| Strings.ParsePrinted | cmd/ocp-efa-device-plugin/dp.go:128-132 | reading a printed integer gives it back exactly in the 32-bit range |
| DeviceIds.RoundTripIff | cmd/ocp-efa-device-plugin/dp.go:119-133 | a printed id gives back its index exactly for 32-bit indices |
| DeviceIds.IdsInjective | cmd/ocp-efa-device-plugin/dp.go:119-121 | distinct indices get distinct ids |
| DeviceIds.HostIsolationIff | cmd/ocp-efa-device-plugin/dp.go:123-133 | an id of one host reads as an index on another iff the owner's name is the reader's plus a dash and the index is 0 |
| DeviceIds.PluginIsolation | cmd/ocp-gdrdrv-device-plugin/dp.go:208-222 | no id of one plugin reads as an id of the other, on any hosts |
| EfaPlugin.EfaDevicePlugin.GetDevices | cmd/ocp-efa-device-plugin/dp.go:231-262 | one id per uverbs entry in order; nothing when the directory cannot be read, an entry has no number, or there is none |
| EfaPlugin.EfaDevicePlugin.Allocate | cmd/ocp-efa-device-plugin/dp.go:321-352 | every device handed out is an existing file, under its own path and read-write, of an id that was asked for; there is an answer iff some requested id can be served; the devices of each container that gets any; without any, the error of the last rejected id |
| EfaPlugin.GrantedIff | cmd/ocp-efa-device-plugin/dp.go:327-341 | for any id and any files: granted iff it reads as an index other than -1 and the file of that index exists; that file is what is granted, and the error says which is missing |
| EfaPlugin.GrantsIff | cmd/ocp-efa-device-plugin/dp.go:326-349 | there are responses iff some requested id can be served |
| EfaPlugin.LastErrorIs | cmd/ocp-efa-device-plugin/dp.go:323-338 | the error is that of the last rejected id of all containers |
| EfaPlugin.ErrorIff | cmd/ocp-efa-device-plugin/dp.go:328-338 | an error is at hand iff some requested id was rejected |
| EfaPlugin.DevicesAppend | cmd/ocp-efa-device-plugin/dp.go:326-342 | what an id gets does not depend on the other ids |
| EfaPlugin.NoDevicesIff | cmd/ocp-efa-device-plugin/dp.go:343-345 | a container is dropped iff all its ids are rejected |
| EfaPlugin.UverbsAppend | cmd/ocp-efa-device-plugin/dp.go:239-242 | the scan keeps directory order |
| EfaPlugin.EntryServedIff | cmd/ocp-efa-device-plugin/dp.go:243-255 | the id advertised for an entry is served with that very entry iff the entry is in decimal form and its index is not -1 |
| EfaPlugin.AdvertisedDistinct | cmd/ocp-efa-device-plugin/dp.go:239-256 | distinct canonical entries get distinct ids |
| EfaPlugin.AdvertisedIsAllocated | cmd/ocp-efa-device-plugin/dp.go:321-352 | whatever advertised devices containers ask for, each gets the files of just those entries in order |
| GdrdrvPlugin.GdrdrvDevicePlugin.GetDevices | cmd/ocp-gdrdrv-device-plugin/dp.go:303-316 | 128 ids that read back as 0 to 127 when the device file exists, else nothing |
| GdrdrvPlugin.GdrdrvDevicePlugin.Allocate | cmd/ocp-gdrdrv-device-plugin/dp.go:375-408 | one device for every container from the first that holds an own id onward; else the error of the last id |
| GdrdrvPlugin.LastIdIs | cmd/ocp-gdrdrv-device-plugin/dp.go:382-391 | the id the error names is the last one any container asks for |
| GdrdrvPlugin.CarriedFlagIff | cmd/ocp-gdrdrv-device-plugin/dp.go:381-402 | the loop agrees with the per-container rule iff no container without an own id follows one with it |
| Watch.NoLostUpdate | cmd/ocp-efa-device-plugin/dp.go:264-319 | in every interleaving, with scans that see changes made meanwhile or not, a settled stream has sent the list of the present directory last |
| Watch.CurrentIff | cmd/ocp-efa-device-plugin/dp.go:299-301 | that holds for all runs iff the list depends only on names the filter passes |
| Watch.CatchesUp | cmd/ocp-efa-device-plugin/dp.go:294-318 | once the directory is quiet, at most three steps per pending event and three more bring the stream up to date |
| WatchedLists.EfaFilterExact | cmd/ocp-efa-device-plugin/dp.go:210-212 | the event filter passes exactly the names the scan reads |
| WatchedLists.EfaListIsGetDevices | cmd/ocp-efa-device-plugin/dp.go:231-262 | the watched list is what GetDevices returns for the directory |
| WatchedLists.EfaListIsCurrent | cmd/ocp-efa-device-plugin/dp.go:264-319 | the EFA plugin loses no update |
| WatchedLists.GdrdrvListIsUsers | cmd/ocp-gdrdrv-device-plugin/dp.go:303-316 | the watched list of the gdrdrv plugin holds just the ids of the 128 users iff the device file exists |
| WatchedLists.GdrdrvListIsCurrent | cmd/ocp-gdrdrv-device-plugin/dp.go:299-373 | the gdrdrv plugin loses no update |
| Lifecycle.DevicePlugin.Serve | cmd/ocp-efa-device-plugin/dp.go:143-193 | an error leaves a live server iff it comes after the server was made |
| Lifecycle.DevicePlugin.Stop | cmd/ocp-efa-device-plugin/dp.go:195-208 | takes down a server if there is one and closes the channel then only |
| Lifecycle.StopTwice | cmd/ocp-efa-device-plugin/dp.go:195-208 | stopping twice closes the channel once |
| Lifecycle.DpLoop | cmd/ocp-efa-device-plugin/dp.go:35-90 | for every sequence of events and outcomes: never two live servers, one Serve per plugin and restart, no channel closed twice, none live after a signal, and after an error one iff Serve failed behind its server |

## Left out

- Pod templates, SecurityContextConstraints fields, container images, Dockerfile text and status descriptions: constant data.
- Looking up the group, version and kind of a resource at the start of `CreateCluster`: a foreign call, taken to succeed.
- Garbage collection through owner references, child finalizers, and stale reads from informer caches: outside the repository.
- More than one finalizer on a resource, edits of specs, status or finalizers by users, and concurrent requests of one controller.
- Regular expressions in general: kernel labels are taken as literal text, so characters with a special meaning in a pattern are not modelled.
- gRPC, sockets, registration, sleeps and timeouts: only whether they succeed; a watcher that cannot be made ends the plugin loop before anything in `Lifecycle.DpLoop` happens.
- Overflow of the file-system event queue, a watched directory that is removed or cannot be read while `ListAndWatch` runs, and the NUMA topology in device lists.
- `getGdrdrvMajor`, `createGdrDrvLoop`, `createGdrDrv`, `deleteGdrDrv`: single-pass reading of one file and one system call each, which would add only easy members.
- The order of kernel mappings in a Module follows Go's map iteration, so a Module holds a set of them.
- `api/v1alpha1`, `main.go`, manifests and test images: types, wiring and data.
- Healing.ReconcileHeals: with nodes that still wait for discovery an EfaDriver stops before its Module, which `Status.StatusFaithful` covers.
