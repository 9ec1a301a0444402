# Load balancer configuration controller: model and proofs

The controller runs on every load balancer host of a cluster. One reconcile reads a
LoadBalancerConfig, renders eleven configuration files from it, writes those that differ, reloads
the services of the written files, and sends back a status that all hosts share. This project models
that behaviour in Dafny 4.11 and proves what it keeps. `dafny verify dfyconfig.toml` checks all of it.

For each file there are four copies of the truth: the rendered text, the hash in the shared status,
the config file on disk, and its `.sha256` sibling. A reconcile skips a file when the saved hash is
that of the new text and the digest file names the config file. The saved hash is thus a cache that has
to agree with "always write", although a fault can fall between any two system calls.

The model has three levels, joined by refinement lemmas.

* `Lane`: the life of one file on one host, as a state machine over comparisons, crashes, failed
  writes, reloads, status updates and outside changes. `FilePair` gives the system calls of one
  write. The central theorems are proved here. `Faults` says exactly which faults lose a file or a
  reload, and `BadRuns` holds runs that show that the hypotheses are needed.
* `Pass` and `Controller`: one reconcile. `Controller` has the source's form, objects whose methods
  change the files, the status entry and the set of updated services in place. Every method is
  proved against the values of `Pass`.
* `Cluster` and `Runs`: any number of hosts that interleave their reconciles and share the status
  under a version check. A reconcile may begin with a stale copy of the object. `Runs.RunProjects` shows that every run of a cluster is, for each file of
  each host, a run of `Lane`, and `Runs.PassIsRun` that an undisturbed pass in it is what `Controller`
  computes. Through it convergence, reload, refinement of writing and the rejection of torn files are
  stated for every file of every host of a cluster.

`Netip`, `Sorting`, `Vips` and `Internal` model the virtual addresses and what is derived from them,
`NMConnection` and `HAProxyApi` two of the printers with parsers for their texts, and `FinalConfig`,
`Files` and `Paths` the final texts and where they go. `EndToEnd` joins the parts: from a changed
specification to the reloaded service and to what that service has read.

What the texts and numbers are is also stated without the functions that compute them: `LinesSpelled`
and `FinalTextSpelled` spell out the texts, `NameSpelled` the file names, `Pass.ReloadSetExactly` the reload
set service by service, and the orders and networks are told from the numbers of the addresses.

Assumptions are parameters or hypotheses, never axioms: SHA-256 (section 6.2 of FIPS 180-4) is any
function to 64 characters without collisions among the texts of the run in question; the text of an
address is any function that satisfies `Netip.Lawful`; what the host's interfaces, the API server and
the reload commands answer is an input.

## Where the code is weaker than one may expect

* The hash is recorded before the write is tried. A write that fails before truncation leaves the old
  pair under the new hash, and the next comparison accepts it (`BadRuns.EarlyFailureMisleads`). The
  exact condition for one retry to repair a failed write is `Lane.RetryRepairsExactly`, and the exact
  set of stops that leave a wrong but accepted file is `FilePair.MisleadingExactly`.
* A text that returns (A, B, A) is skipped although the disk holds B, when the status of the pass that
  wrote B was lost. A crash does this (`BadRuns.ReturnMisleads`), and so does a rejected update
  (`BadRuns.RejectedReturnMisleads`), which is routine where several hosts share one status; a stale copy
  of the status does it without any fault (`BadRuns.StaleReturnMisleads`).
  `Faults.LostUpdateMisleadsExactly` is the exact condition. Without lost work and stale copies none is
  needed (`Lane.SkippingRefinesWriting`).
* A digest file that cannot be opened, followed by a crash, can misbehave without either of the above,
  when one final text is a prefix of another (`BadRuns.TornMisleads`).
* Reloads are lost, among other ways, by a write that fails after its whole digest is on disk
  (`BadRuns.WriteFailureLosesReload`), by a reload that fails (`BadRuns.FailedReloadIsNotRetried`), and by a
  retry of a failed write that dies before its reload (`BadRuns.CrashedRetryLosesReload`). As long as the
  text stays and no other file of the same service is written, no later reconcile makes up for it
  (`Faults.ForGood`); a reload that another file of the service brings does (`Faults.LoadedExactly`).
  `Faults.OneFaultExactly` says for every stop and every end of a reconcile what the next one can still
  repair. The comment on `ConfigHashes` (api/v1alpha1/loadbalancerconfig_types.go:152-157) says that the map
  decides whether a service is reloaded; the code decides so before it knows that the reload succeeds.
* After a failed reload the status says Failed, but the next reconcile skips and says Ready although the
  services still have their old files (`Runs.FalseReady`). `Runs.ReadyIsTrueExactly` says when Ready means
  that all files are loaded.
* The conditions of the two theorems on runs are exact: `Lane.ConvergenceInvStep` and `Faults.LoadInvStep`
  say that an event keeps the invariant if and only if it meets its condition, and from every event that
  does not, a run goes on without further faults to a wrong success (`Faults.FaultMisleads`,
  `Faults.FaultLosesReload`).
* A host's entry is made only while there is no node map at all. So from a fresh object at most one host
  is ever registered (`Cluster.OneHostRegisters`), and all others panic in every pass
  (`Cluster.OnlyTheFirstHost`, with a run in `Cluster.TwoHostsLockOut`), unless somebody else enters them.
* The stamp's generation is not hashed, so a file may carry an older generation than the object. The
  theorems therefore speak of a final text of some generation.
* A network of length 31 or 32 does not hold the three internal addresses, and a network of length 30
  uses its broadcast address (`Internal.InternalAddresses`).
* The comments on `Ingress` and `NAT` (api/v1alpha1/loadbalancerconfig_types.go:76-91) call them
  optional. A missing NAT address makes the direct rules panic
  (internal/controller/firewalld.go:13), a missing ingress backend the ingress file
  (internal/controller/haproxy.go:39). In the model such a panic is a crash, and a host that renders
  such a specification never reloads anything and never changes its entry
  (`EndToEnd.IncompleteSpecification`).

## Model

| member | source | states |
|---|---|---|
| FilePair.MicroRunState | internal/controller/write_config.go:79-106 | After any number of system calls of a write, the point reached and the pair on disk, in closed form: the config file is truncated and filled first, then the digest file |
| FilePair.CrashPointsAreOutcomes | internal/controller/write_config.go:79-108 | A pair can be on disk when the process dies in WriteConfig if and only if it is what one of its error returns or its success leaves |
| FilePair.AcceptedAfterExactly | internal/controller/write_config.go:79-133 | For every stop, whether the pair is accepted afterwards, told from the pair before |
| FilePair.MisleadingExactly | internal/controller/write_config.go:79-133 | Exactly two kinds of stops leave a file that is accepted although it is not the new one: before truncation over an accepted older pair, and a cut where a text named by the old digest ends |
| Lane.RetryRepairsExactly | internal/controller/loadbalancerconfig_controller.go:257-263 | After a failed write, one retry without faults repairs the file if and only if the write neither stopped before truncation over an accepted file of another text nor cut the text to one of another text that the digest file names |
| Lane.HidesExactly | internal/controller/write_config.go:79-133 | A stop hides its failure, as told from the pair before, if and only if it leaves an accepted file of another text |
| Lane.HidingMisleads | internal/controller/write_config.go:79-106 | Every stop that hides its failure from the next comparison is one of the two misleading kinds |
| Lane.Convergence | internal/controller/loadbalancerconfig_controller.go:244-264 | In every run of reconciles, crashes, rejected status updates and outside changes, in which every event meets its condition and no text returns after being left, a comparison without error, by writing or skipping, leaves the rendered text on disk; the condition forbids a write to hide its failure, except in a crash while the saved hash is behind, and an outside change to put an accepted file of another text under the hash of the newest |
| Lane.ConvergenceInvStep | internal/controller/loadbalancerconfig_controller.go:244-264 | An event keeps the invariant, that neither the saved nor the held hash names the newest text over an accepted file of another text, if and only if it meets its condition |
| Lane.ReloadedWhenDone | internal/controller/loadbalancerconfig_controller.go:77-103 | For runs told by their events alone: with crashes and rejected status updates as the only faults and texts that never return, when a reconcile has finished its reloads the service has loaded exactly what the compared file holds, and that is the rendered text |
| Lane.ReloadInvStep | internal/controller/loadbalancerconfig_controller.go:77-103 | Every step keeps: a saved hash of the newest text means that it is on disk and loaded; a held one that it is on disk and loaded or about to be |
| Lane.SkippingRefinesWriting | internal/controller/loadbalancerconfig_controller.go:254-263 | Without lost work, for any sequence of texts, and whatever is on disk at the first start, the disk is up to the stamp what a controller that always writes would leave, and once a text was rendered an accepted pair is made from one that has the recorded hash |
| Lane.TornNeverAccepted | internal/controller/write_config.go:82-133 | In every run with crashes and failures anywhere and arbitrary changes to the config file, but none from outside to the digest file, an accepted config file is a text that some WriteConfig wrote completely |
| Faults.ReconcileRuns | internal/controller/loadbalancerconfig_controller.go:77-103 | Event by event, one reconcile of a file, with any stop of its write, dying or ending anywhere, and with or without another file of its service being written, leaves the stated pair, saved hash and loaded content |
| Faults.ServedExactly | internal/controller/loadbalancerconfig_controller.go:254-263 | A reconcile without faults leaves its text on disk and loaded unless the disk is accepted, the saved hash is that of the text, and the file is of another text, or not loaded while no other file of its service is written |
| Faults.LoadedExactly | internal/controller/loadbalancerconfig_controller.go:82-96 | A reconcile without faults ends with the service having the content of the file if and only if it does not skip over an unloaded file with no other file of the service written |
| Faults.RetryReloadsExactly | internal/controller/loadbalancerconfig_controller.go:257-263 | After a failed write the retry writes again and marks the service if and only if the failure left a rejected pair, a condition on the pair before and the stop |
| Faults.FailedReloadExactly | internal/controller/loadbalancerconfig_controller.go:91-103 | After a failed reload with a saved or rejected status, the next reconcile without faults makes up for it if and only if it renders a text that the saved hash does not name, another file of the service is written, or the service had that content already |
| Faults.LostUpdateMisleadsExactly | internal/controller/loadbalancerconfig_controller.go:98-105 | When a pass wrote another text and its status was lost by a crash or rejection, the next one without faults leaves its text if and only if this is not the earlier one again or the whole digest of the lost write was not on disk |
| Faults.OneFaultExactly | internal/controller/loadbalancerconfig_controller.go:77-105 | From a served text, for every stop of the write of another one, every end of that reconcile, and reloads brought by other files of the service in either, the next reconcile without faults leaves its text on disk and loaded if and only if the stated table loses nothing |
| Faults.ForGood | internal/controller/loadbalancerconfig_controller.go:254-259 | Over an accepted file with the saved hash of the text, every run in which the text stays, nobody changes the file and no reload of its service takes place keeps the file, the hash and what the service has loaded |
| Faults.FaultMisleads | internal/controller/loadbalancerconfig_controller.go:254-263 | From every event that does not meet its condition for convergence, after whatever kept the invariant, a run goes on without further faults, other than a crash, to a successful comparison over a file of another text |
| Faults.LoadedUnlessLost | internal/controller/loadbalancerconfig_controller.go:77-103 | At-least-once reload with failed writes, crashes, rejected updates, failed reloads and outside changes, for every run in which every event meets its condition and no text returns |
| Faults.LoadInvStep | internal/controller/loadbalancerconfig_controller.go:77-103 | An event keeps the invariant, that the hash of the newest text stands over a file of this text that is loaded or about to be, if and only if it meets its condition |
| Faults.FaultLosesReload | internal/controller/loadbalancerconfig_controller.go:77-103 | From every event that does not meet its condition for reload, a run goes on without further faults, other than a crash, to a successful comparison with no reload outstanding and the newest text not served |
| BadRuns.EarlyFailureMisleads | internal/controller/loadbalancerconfig_controller.go:260-263 | For any two texts, a run in which the config file cannot be opened ends with a successful comparison over the older file |
| BadRuns.ReturnMisleads | internal/controller/loadbalancerconfig_controller.go:254-263 | For any two texts, a crash after the write and a return to the first text end with a successful comparison over the second |
| BadRuns.RejectedReturnMisleads | internal/controller/loadbalancerconfig_controller.go:103-105 | For any two texts, a rejected status update, without any crash, and a return to the first text end with a successful comparison over the second |
| BadRuns.StaleReturnMisleads | internal/controller/loadbalancerconfig_controller.go:62-65 | With a stale copy of the status a text that returns is skipped over a file of the other text in a run without any fault |
| BadRuns.TornMisleads | internal/controller/write_config.go:87-97 | If one final text is a proper prefix of another, a failed open of the digest file and a cut write end with the shorter file accepted under the hash of the longer, with no early failure and no text that returns |
| BadRuns.WriteFailureLosesReload | internal/controller/write_config.go:100-106 | After a write that fails once its whole digest is on disk, the new file is accepted and its service keeps the old one in every continuation in which the text stays, nobody changes the file and no reload of its service takes place |
| BadRuns.CrashedRetryLosesReload | internal/controller/write_config.go:95-106 | A failed open of the digest file and a retry that dies before its reload leave the new file accepted and its service with the old one, in every continuation in which the text stays, nobody changes the file and no reload of its service takes place |
| BadRuns.FailedReloadIsNotRetried | internal/controller/loadbalancerconfig_controller.go:91-103 | After a failed reload the status is saved and the next reconcile skips; the service does not read the file in any continuation in which the text stays, nobody changes the file and no reload of its service takes place |
| Pass.FilesIsolated | internal/controller/loadbalancerconfig_controller.go:120-202 | After any number of steps of a pass, each file and hash are as if its own step had run alone, or untouched if its turn has not come |
| Pass.Isolation | internal/controller/loadbalancerconfig_controller.go:120-202 | Whatever render and write steps fail, every file and hash end as if its step ran alone, the services to reload are exactly those of the steps that changed a file without error, and there is an error if and only if a step failed |
| Pass.ReloadSetExactly | internal/controller/loadbalancerconfig_controller.go:120-200 | Six if-and-only-ifs: HAProxy is to be reloaded exactly if the step of api.cfg or ingress.cfg changed its file without error, Keepalived for lb.conf or global.yaml, Conntrackd for conntrackd.conf, NetworkManager for one of the three connections, Sysctl for 50-lb.conf, Firewalld for external.xml or direct.xml |
| Pass.SuccessSettles | internal/controller/loadbalancerconfig_controller.go:108-203 | After a pass without errors every file is accepted and carries the hash of its text |
| Pass.Quiescence | internal/controller/loadbalancerconfig_controller.go:108-203 | A second pass over the untouched disk and saved hashes that renders the same texts changes nothing, reloads nothing and reports no error, whatever the generation |
| Cluster.InvRun | internal/controller/loadbalancerconfig_controller.go:63-103 | In every state of every run a copy of the status whose version is current differs from the server's in the host's own entry only |
| Cluster.OverlappingPassRejected | internal/controller/loadbalancerconfig_controller.go:63-103 | When the specification is edited or another host's update changes the status during a pass, the update of that pass will be rejected |
| Cluster.OthersEntrySafe | internal/controller/loadbalancerconfig_controller.go:63-103 | For any number of hosts that interleave reads, reconciles and version-checked updates, a host's entry changes only by that host's own update |
| Cluster.HostsFixed | internal/controller/loadbalancerconfig_controller.go:213-218 | Once there is a node map no run adds or removes a host, whatever passes are in progress |
| Cluster.LockedOut | internal/controller/loadbalancerconfig_controller.go:213-247 | Whatever passes are in progress, after any run a host can start a pass if and only if it is in the node map from which the run started |
| Cluster.OneHostRegisters | internal/controller/loadbalancerconfig_controller.go:213-218 | From an object without a node map, for any number of hosts and any interleaving, at most one host is ever registered |
| Cluster.OnlyTheFirstHost | internal/controller/loadbalancerconfig_controller.go:213-247 | Once it is, after every continuation that host can start a pass and no other one can |
| Cluster.TwoHostsLockOut | internal/controller/loadbalancerconfig_controller.go:213-247 | A run of two hosts over a fresh object that ends with the second one locked out |
| Cluster.SiblingMarks | internal/controller/loadbalancerconfig_controller.go:122-128 | A file that is written without error marks the other files of its service for reload |
| Cluster.PanickingHost | internal/controller/haproxy.go:39 | A host all of whose passes panic at the same file never reloads a service and never changes its entry |
| Cluster.ViewStep | internal/controller/loadbalancerconfig_controller.go:59-106 | Every event of the cluster is, for each file of each host, one event of that file's life, and steps of other hosts do not reach it |
| Runs.RunProjects | internal/controller/loadbalancerconfig_controller.go:59-106 | Every run of the cluster is, for each file of each host, a run of that file's life that ends in the same state |
| Runs.PastRun | internal/controller/loadbalancerconfig_controller.go:62-65 | In every run with texts that never return, every earlier version of the object has for a file the hash of a rendered text, and that of the newest text only if it is still the saved one, so that a stale read misleads nobody |
| Runs.ConvergesInCluster | internal/controller/loadbalancerconfig_controller.go:244-264 | Crash-tolerant convergence for every file of every host in every run of a cluster, stale reads of the object included |
| Runs.LoadedFileAtUpdate | internal/controller/loadbalancerconfig_controller.go:77-103 | In every run of a cluster in which a host suffers only crashes and rejected updates, when it is about to send its status, each compared file whose own text never returns holds the rendered text and is loaded |
| Runs.LoadedAtUpdate | internal/controller/loadbalancerconfig_controller.go:77-103 | The same for all such files together, and Ready means that all eleven were compared |
| Runs.LoadedUnlessLost | internal/controller/loadbalancerconfig_controller.go:77-103 | The same theorem in a cluster: each event on the file but a stale read meets its condition |
| Runs.TornNeverAccepted | internal/controller/write_config.go:82-133 | Torn writes are never accepted, for every file of every host |
| Runs.SkippingRefinesWriting | internal/controller/loadbalancerconfig_controller.go:254-263 | Without lost work each file of each host is up to the stamp what a host that always writes would have |
| Runs.PassIsRun | internal/controller/loadbalancerconfig_controller.go:108-203 | In the cluster an undisturbed pass of a host is the sequence of steps that the controller's methods compute, and changes nothing else |
| Runs.WholePassRuns | internal/controller/loadbalancerconfig_controller.go:59-106 | In the cluster a pass that nothing interrupts, with its reloads in any order, all successful or all failing, and its update, ends in the stated state; the entry saved has, field by field, the addresses looked up, the hashes of the pass and "Ready" or "Failed" |
| Runs.SettledPassIsSilent | internal/controller/loadbalancerconfig_controller.go:59-106 | A pass that finds its files settled marks no service and changes nothing on its host, and if its entry is already Ready with the same addresses the cluster ends in the very state in which the pass began |
| Runs.PassThenSilence | internal/controller/loadbalancerconfig_controller.go:59-106 | After a whole pass without errors, with any reloads, another one that renders the same texts ends in the state in which it began, so that an accepted status causes no further reconcile |
| Runs.ReadyIsTrueExactly | internal/controller/loadbalancerconfig_controller.go:82-103 | After a pass without errors and with successful reloads the status is Ready, and all eleven files are loaded if and only if those of the services that were not reloaded were loaded before |
| Runs.FalseReady | internal/controller/loadbalancerconfig_controller.go:91-103 | After a pass whose reloads fail the status is Failed, and after the next one over the same texts it is Ready while the services still have what they had before the first |
| Controller.Reconciler.WriteContents | internal/controller/write_config.go:79-108 | On the file map, in place: of all pairs only that of the file changes, to the outcome where the write stops; no other path changes; an error exactly if it did not complete |
| Controller.Reconciler.WriteConfig | internal/controller/write_config.go:62-142 | The outcome of WriteContents for the final text; and without error the file at the root joined with the name parses to exactly this object, generation and rendered text, and the file of that name plus ".sha256" is its digest |
| Controller.Reconciler.IsFileModified | internal/controller/write_config.go:111-142 | False if and only if the file at the root joined with the name is readable and the file of that name plus ".sha256" holds its digest |
| Controller.Reconciler.CompareAndWrite | internal/controller/loadbalancerconfig_controller.go:244-264 | It skips if and only if the file is intact and the recorded hash is that of the text; afterwards the recorded hash is that of the text in every case; after a write without error the file carries the text; only this pair and this hash change, and the node map keeps its objects |
| Controller.Reconciler.Component | internal/controller/loadbalancerconfig_controller.go:120-211 | One render-and-compare block equals the step of a pass: errors, hashes, files and the updated service |
| Controller.Reconciler.InitializeNodeStatus | internal/controller/loadbalancerconfig_controller.go:213-242 | Creates the entry only if there is no node map; fails if and only if the cluster network is not IPv4 or a lookup fails, and then sets nothing; else the entry has, field by field, the address of the public interface, that of the cluster interface, the second address of the cluster network on the primary host and the third on the other, and the status "Configuring" |
| Controller.Reconciler.ReconcileLBConfig | internal/controller/loadbalancerconfig_controller.go:108-203 | The eleven blocks in order equal the steps of one pass; each service is among the updated ones if and only if the step of one of its own files changed the file without error; only the host's own entry and files change |
| Controller.Reconciler.ReloadServices | internal/controller/loadbalancerconfig_controller.go:82-96 | In any order of the map, file by file: the service has read the file as it is if it is among the services, its reload succeeds and the root is "/", and what it had before otherwise; an error if and only if a reload that was run failed |
| Controller.Reconciler.Reconcile | internal/controller/loadbalancerconfig_controller.go:77-105 | The entry to send carries the addresses looked up, the hashes of the pass, and "Ready" if and only if neither the pass nor a reload failed, else "Failed"; the reloads are exactly those of the changed files; the returned error ignores reloads; other hosts' entries keep their objects and values |
| Controller.LayoutApart | internal/controller/write_config.go:135-142 | Under any config root the 22 files that the controller works with are pairwise different |
| Controller.FinalUnderParses | internal/controller/write_config.go:38-60 | Under any root the final text of a file parses to exactly the object, the generation and the rendered text |
| Files.NamesDistinct | internal/controller/write_config.go:17-30 | The eleven file names, which are the keys of the config hashes, are pairwise different |
| Files.NameSpelled | internal/controller/write_config.go:17-30 | Split at their slashes the eleven names have exactly the parts of the source's constants |
| Files.PathsDistinct | internal/controller/write_config.go:135-142 | Under any root, relative, empty or with dots, config paths and digest paths are pairwise different and never meet |
| Files.XmlFiles | internal/controller/write_config.go:41-44 | Under any root exactly the two Firewalld files get the XML header and stamp |
| Paths.JoinIsPrefix | internal/controller/write_config.go:135-137 | Joining any root and an absolute file name puts a text that depends on the root alone in front of the name |
| Paths.JoinSpelled | internal/controller/write_config.go:135-137 | A root of plain components, absolute or relative, is put in front of the file's components; the roots "/", "" and "/.." add nothing, and a leading ".." stays |
| Paths.DotsInRoot | internal/controller/write_config.go:135-137 | A component followed by "..", a ".", and a slash too many change nothing |
| FinalConfig.FinalRoundTrip | internal/controller/write_config.go:38-60 | From a final text of either style a parser recovers namespace, name, UID, generation and the body, whatever the body is |
| FinalConfig.FinalTextSpelled | internal/controller/write_config.go:38-60 | The final text of each file under any root, spelled out: XML declaration, comment and stamp for the two Firewalld files, "#" lines for all others |
| Sorting.DeterminedExactly | internal/controller/vip.go:219-229 | The sorted keys are the same for every order of the map and every sort if and only if no two keys share their address |
| Sorting.LeqExactly | internal/controller/vip.go:219-229 | The comparison orders addresses as their numbers do, with IPv4 before IPv6 |
| Sorting.SortFunc | internal/controller/vip.go:219-229 | The sort in place leaves a permutation in netip's order told from the numbers: IPv4 before IPv6, each family ascending |
| Vips.ParseVIP | internal/controller/vip.go:179-188 | It returns a prefix if and only if this is what the address parses to and it has the full length of its family, 32 or 128 |
| Vips.VIPsOfKind | internal/controller/vip.go:102-177 | A prefix is in the list if and only if it is an extra or some API, ingress or NAT address of the wanted type parses to it at full length; each is in it once, in order by number; an error exactly if one of the type does not parse |
| Vips.PublicVIPs | internal/controller/vip.go:142-177 | The list has exactly the addresses of type "public", strictly ascending by number with IPv4 first, and is a function of the configuration |
| Vips.ListsAreCanonical | internal/controller/vip.go:102-188 | Permuted, repeated or redistributed virtual addresses and single-address extras give the same strictly ascending list |
| Vips.ListDeterminedExactly | internal/controller/vip.go:102-140 | With arbitrary extras the list is determined if and only if no extra shares its address with a different prefix in it |
| Vips.GetHAProxyFrontends | internal/controller/vip.go:65-100 | The three lists have exactly the API addresses, those of type "private" among them, and the ingress addresses, each strictly ascending by number; an error exactly if one does not parse |
| Vips.FrontendsCanonical | internal/controller/vip.go:65-100 | The frontends depend on the sets of virtual addresses only |
| Vips.OwnedExactly | internal/controller/vip.go:65-177 | Every address that HAProxy binds is in the Keepalived or the Floaty list if and only if it occurs with an admitted type or is an extra; always, when all types are admitted |
| Vips.IgnitionIsPrivate | internal/controller/vip.go:70-79 | The ignition addresses are API addresses, and Keepalived owns them |
| Vips.SplitFamilies | internal/controller/network_manager.go:18-27 | The loop yields the subsequences of the IPv4 and of the other addresses |
| Vips.SplitKeepsOrder | internal/controller/firewalld.go:31-39 | The IPv4 list followed by the IPv6 list is the sorted list itself |
| Internal.InternalAddresses | internal/controller/vip.go:190-203 | For every IPv4 prefix with b = 32 minus its length, the network starts at the one multiple m of 2^b with m <= address < m + 2^b; the three addresses agree with it in the leading bits if and only if the length is at most 30, then they are m + 1, m + 2 and m + 3 without overflow, and none is the broadcast address if and only if the length is at most 29 |
| Internal.AddressByRole | internal/controller/vip.go:205-217 | The own address is the second of the network on the primary host and the third on the other, and the peer's the other way round |
| Internal.SameNetworkSameIPs | internal/controller/vip.go:190-203 | Hosts whose addresses agree in the leading bits compute the same three addresses |
| Internal.RenderKeepalivedConfig | internal/controller/keepalived.go:18-57 | What the template is given: own and peer address by role, priority, and exactly the VIPs of type "private" plus the gateway if there is a NAT address; an error exactly in the cases of the source |
| Internal.PairAgreement | internal/controller/keepalived.go:18-57 | Two hosts with opposite roles name each other as peers, in Keepalived and Conntrackd, the primary one with m + 2 and the other with m + 3 for the network's start m, with priorities that VRRP allows (section 5.2.4 of RFC 9568) and of which the primary one has the higher, and with equal VIP lists, strictly ascending by number, that hold m + 1 if there is a NAT address |
| NMConnection.RoundTrip | internal/controller/config_templates/keepalived.nmconnection.tmpl:1-23 | A parser recovers both lists in order for any lengths, each numbered from 1, with an IPv6 section exactly if that list is not empty |
| NMConnection.LinesSpelled | internal/controller/config_templates/keepalived.nmconnection.tmpl:1-23 | The lines of the text, spelled out, for lists of any length |
| NMConnection.PrintedDetermines | internal/controller/config_templates/keepalived.nmconnection.tmpl:11-23 | Different lists are printed differently |
| NMConnection.RenderKeepalivedDummyNMConnection | internal/controller/network_manager.go:11-34 | The text is a function of the configuration, and there is an error exactly if a public VIP does not parse |
| NMConnection.DummyTextReads | internal/controller/network_manager.go:18-33 | What the text lists, IPv4 section first, is the sorted list of VIPs |
| NMConnection.DummyTextExactly | internal/controller/network_manager.go:11-34 | Two configurations get the same text if and only if they have the same set of public VIPs |
| HAProxyApi.GetHAProxyBackends | internal/controller/vip.go:48-62 | The backends stand, in node order, for exactly the nodes with an internal address, each with its first one |
| HAProxyApi.SelectedUnique | internal/controller/vip.go:48-62 | The backends are determined by the node list |
| HAProxyApi.ServerNamesDistinct | internal/controller/config_templates/openshift/haproxy.api.cfg.tmpl:17-25 | No two servers of a backend share their name |
| HAProxyApi.RoundTrip | internal/controller/config_templates/openshift/haproxy.api.cfg.tmpl:1-25 | A parser recovers the addresses of both frontends and, equal in both backends, the numbered servers in order |
| HAProxyApi.LinesSpelled | internal/controller/config_templates/openshift/haproxy.api.cfg.tmpl:1-25 | The lines of the text, spelled out: sections, default backends, ports 6443 and 22623, options and servers, for lists of any length |
| HAProxyApi.ApiTextReads | internal/controller/config_templates/openshift/haproxy.api.cfg.tmpl:4-25 | Read back, the API frontend has the API addresses, the ignition frontend the private ones, and both backends the addresses of the backends in order |
| HAProxyApi.RenderHAProxyAPIConfig | internal/controller/haproxy.go:15-66 | The text is made from the frontends and the given backends if there are any, else from those selected from the nodes; an error exactly if an address does not parse or the nodes are needed and cannot be listed |
| HAProxyApi.ApiTextExactly | internal/controller/haproxy.go:15-31 | Two configurations get the same text if and only if the API addresses, the private ones among them, and the backend addresses with their order are the same |
| EndToEnd.TextChange | internal/controller/loadbalancerconfig_controller.go:120-202 | In a whole pass, a step without error rewrites file, digest and hash and marks the service when the text differs from the one whose hash is saved or the file was changed, and does nothing when neither is so, whatever the other steps do |
| EndToEnd.PublicVIPChange | internal/controller/loadbalancerconfig_controller.go:179-183 | A changed set of public VIPs is written and reloads NetworkManager, whatever is on disk; over an intact file a reordered or repeated specification does nothing |
| EndToEnd.APIChange | internal/controller/loadbalancerconfig_controller.go:122-131 | A changed API listener, or changed or reordered backends, are written and reload HAProxy; over an intact file anything else does nothing |
| EndToEnd.FinalTextsReadable | internal/controller/write_config.go:38-60 | The controller's own final texts of different rendered texts differ, as the exact fault theorems ask |
| EndToEnd.ReconcilerFinalizes | internal/controller/write_config.go:62-75 | A controller under the root "/" makes the final texts that the theorem on loaded VIPs speaks of |
| EndToEnd.IncompleteSpecification | internal/controller/firewalld.go:11-16 | In every run a host that renders a specification without NAT address or ingress backend never reloads a service and never changes its entry |
| EndToEnd.LoadedVIPs | internal/controller/loadbalancerconfig_controller.go:77-103 | In every run of a cluster with crashes and rejected updates on the host, if the text of this one file never returns, NetworkManager has, when the status is sent, loaded a file that names the object and lists exactly the addresses of type "public" of the specification, with /32 or /128, strictly ascending by number with IPv4 first |

## Left out

- Templates other than the NetworkManager dummy connection and the OpenShift API configuration: their texts are inputs of a pass, like the failures of their rendering.
- RenderFloatyConfig: only its list of public VIPs is modelled; choosing the fields of the credentials by provider adds no property.
- Lookups of interfaces, addresses and routes (internal/controller/network.go): their results are inputs. In Cluster and Runs all three addresses of an entry are inputs; in Controller the internal one is computed.
- Reading the object and the credentials before a reconcile starts: a failed read changes nothing.
- Runs.LoadedFileAtUpdate: excludes stale reads on the host, because a pass with an older hash rewrites a served file, and a crash before its reload leaves the service with the earlier stamp. Runs.LoadedUnlessLost admits them.
- Runs.SkippingRefinesWriting: excludes stale reads, because they mislead when texts return (`BadRuns.StaleReturnMisleads`).
- Cluster.OnlyTheFirstHost: is about passes that read the newest version; a stale copy without a node map lets another host run a pass, whose status is rejected.
- Running the reload commands: only success or failure, and the fact that the service then reads its files.
- Panics on a missing ingress backend or NAT address: they are the same as a crash at that point of the run.
- Conntrackd without the cluster interface: its text is then empty without an error (`Internal.ConntrackdFor`), and the pass writes that empty text like any other.
- Parsing and printing of addresses in Go's netip: a parameter. The parser needs no law; the printer needs those of `Netip.Lawful` (section 4 of RFC 5952 for IPv6).
- File modes, directories and logging; a directory that cannot be made is one of the stops of a write.
- Unreadable files count as absent ones, as in the source's test for changes.
- A config file that fails to close is taken to hold the whole text.
- The keys of the config hashes are the files themselves; `Files.NamesDistinct` shows that the names in the source are different keys.
- Sorting.SortFunc: is an insertion sort, as the library uses it for short lists; everything about the lists uses only that the result is sorted and a permutation.
- Lane.Convergence: starts from a host without a saved hash, and has hypotheses on faults and on texts that return, because the code does not converge otherwise (`BadRuns`).
- Lane.ReloadedWhenDone: excludes failed writes and failed reloads, because the code does not repair the loss of a reload; `Faults.LoadedUnlessLost` admits those that lose none, and `Faults.OneFaultExactly` says which do.
- HAProxyApi.RoundTrip: the names of the cluster's nodes are not in the text, and the addresses of backends must not contain a newline.
- EndToEnd.PublicVIPChange: the saved hash is that of the earlier text and the two texts do not collide.
- Filtering and queueing of events, the render command, manager start-up, VRRP election, Floaty and Conntrackd themselves.
