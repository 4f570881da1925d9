# InterMux, verified model

InterMux runs applications inside network namespaces that are each bound to one interface of the host, or marks
the traffic of a running application so that it leaves by a chosen interface. This project models the binding
engine as a state machine over the kernel objects it edits, together with the parts the engine stands on, and
proves what every step, every action and every run keeps. Two independent pieces of the repository are modelled
beside it: the SOCKS5 proxy of the Windows version and the rate tracker.

`dafny verify dfyconfig.toml` checks everything.

## How it is built

| file | part of the program |
|---|---|
| basics.dfy | options, duplicates, filters |
| subnets.dfy | the pool 10.200.N.0/24, overlap, the allocator |
| procs.dfy | process trees |
| firewall.dfy | NAT rules as ordered chains |
| routing.dfy | policy route tables, convergence, lookups |
| adopt.dfy | slots, nft marking tables and their meaning |
| record.dfy | the saved record, the kernel, the invariants |
| machine.dfy | the host: every command as a step that may fail or be the last one |
| idle.dfy, watch.dfy | the idle pass and the cheap check in front of it |
| stop.dfy, build.dfy, engine.dfy, actions.dfy | stop, kill, bind, rollback, restart, move, remove, settings |
| refresh.dfy | route passes for namespaces and adoptions |
| adoptions.dfy | adopt and release |
| marks.dfy | what the rules and tables of a whole host do to the packets of its adoptions |
| reset.dfy, resetting.dfy | reset: what stays, and its steps |
| runs.dfy | any sequence of actions |
| dns.dfy | DNS redirect, server order, nsswitch.conf |
| statefile.dfy, reading.dfy, persistence.dfy | the JSON state file, what of any JSON is taken, and the engine's records in it |
| socks5.dfy | handshake, relays, registry |
| traffic.dfy | rate tracker |

`Machine.Host` holds the saved record (`disk`), the kernel (`kern`: namespaces, veths, from-rules, route tables,
iptables chains, adoption slots, cgroups), the processes, the links and the pids signalled so far. A command
either takes effect, or fails, or the program dies at it (`dead`; later commands of the action do nothing). Every
step appends the pair of record and kernel to the ghost `trace`, and `Valid()` says that the invariant
(`Record.Inv`) holds now and held at every step. So a method that keeps `Valid()` keeps the invariant through
all its intermediate states, whichever of its steps fails.

Three ghost counters tell what went wrong so far: `lost` counts failed removals of an interface's plumbing after
which the program went on regardless (remove_nat, the rule delete of remove_policy, swallowed teardowns of a
rollback, a move or a reset), `stuck` the same for the plumbing of an adoption, and `faults` every command that did
not take effect. Contracts compare a counter with its value before the call, so what an action promises never
depends on what failed in earlier ones: what is gone afterwards is stated for calls during which `lost` (or `stuck`)
did not grow, and success, or the exact condition on the input under which there is none, for calls during which
`faults` did not grow. Everything else holds in any case. Each step of the trace carries the count of removals
lost since record and kernel last agreed between two actions; while it is zero every InterMux object of the kernel
belongs to a recorded interface. `Resetting.ResetAll` says exactly when a reset makes them agree again.

Between actions (`Machine.Host.Settle`) processes, links and the members of cgroups change at will and the routes of a
device may go. `Naming.ownTables` says that InterMux's route tables held only routes of its own when it began, as on a
host it has never run on (`Record.NewHost`). Every step keeps it so (`Routing.Shape`), and then a bind, a route pass or
an adopt during which no command fails succeeds and leaves exactly the wanted routes, whatever earlier actions left
behind. Where other programs write to these tables, the contracts state the exact conditions instead.

Namespaces and veth pairs are identified by the suffix of eight hex digits their names share. `Naming.hash` is an
arbitrary function of interface names, one-to-one on the interfaces in use (`Record.CollisionFree`);
`Persistence.NamesApart` shows that different suffixes give different names. Subnets are kept as their index N. A
binding is told from its siblings by position, as in the source, which counts the bindings of a namespace.

## Where the code and its documentation differ

- needs_teardown (intermux/watch.py:49) says it is true exactly when a pass would change something. The code is not
  exact in either direction: an interface that has a subnet and running processes but no binding makes it true
  (`Watch.YesWithNothingToDo`), and it does not look for stale bindings beside live ones
  (`Watch.NoWithABindingToDrop`). `Watch.CheckIsRightIff` gives the exact condition in terms of what a caller can
  look up beforehand: something is idle, or such an interface and a stale binding are both there or both absent.
- ensure_policy (intermux/system/routing.py:162-169) says it makes the table hold exactly the wanted routes.
  Two kinds of starting tables defeat it: one where a wanted route hides behind another route of the same
  destination and metric (the kernel refuses the replace), and one where a default of the interface without
  gateway hides behind another default while a gateway is wanted (the delete meant for it takes the wanted one).
  `Routing.EnsureConverges` proves that it converges on all other tables and on no others;
  `Routing.HiddenWitness` and `Routing.ShadowWitness` are concrete failing tables. `Routing.ReplacesAreExact`: tables
  that only InterMux writes to are never among them.
- A greeting of a SOCKS5 client is answered with "no authentication" whether or not the client offered it, and an
  unsupported command is answered with code 2; RFC 1928 has X'FF' (section 3) and code 7 (section 6) for these.
  The model follows the code; `Socks5.ChoiceIsRightIffOffered` and `Socks5.AnswerIsRightIffConnect` say exactly when
  the answers are the ones the RFC asks for.
- reset (intermux/engine.py:642-650) keeps every NAT rule of a subnet that stays, also a stale masquerade rule of
  that subnet for another interface, and every busy namespace, also one no record knows. `Reset.ResetCoversIff`:
  record and kernel agree after a reset that went through exactly when there is neither; `Reset.UnrecordedWitness` and
  `Reset.StaleMasqueradeWitness` are concrete.
- transferred (intermux/system/traffic.py:116-117) says it counts since the counters were reset. A reset seen while the
  clock stood still is missed (`Traffic.MissedReset`), and no other (`Traffic.TransferredExact`).

## Model

| member | source | states |
|---|---|---|
| Subnets.OverlapsIffShared | intermux/subnets.py:59-61 | the overlap test of two networks of any prefix lengths is true exactly when an address belongs to both |
| Subnets.IndexRoundTrip | intermux/subnets.py:15-41 | subnet_for_index and index_of are inverse on 1..254; subnet N is 10.200.N.0/24, with .1 as the host's address and .2 as the namespace's |
| Subnets.IndexOfInverse | intermux/system/firewall.py:61-67 | a network has an index exactly when it is a pool subnet, and the subnet of that index is the network; one test for state, firewall and routing |
| Subnets.PoolNumber | intermux/system/firewall.py:61-67 | a network given without host bits is a pool subnet exactly when it is one of 10.200.1.0/24 to 10.200.254.0/24 |
| Subnets.PoolNetsShareOnlyThemselves | intermux/subnets.py:15-19 | two pool subnets share an address exactly when their indices are equal |
| Subnets.FreeIffUnused | intermux/subnets.py:59-61 | a candidate passes the test against all used networks exactly when it shares no address with any |
| Subnets.PickSubnet | intermux/subnets.py:55-76 | the preferred subnet when it is an unused pool subnet, else the lowest unused one; none exactly when all 254 are taken |
| Procs.FamilyIsLeast | intermux/system/procs.py:172-197 | the family of seeds is contained in every set that holds them and is closed under admitted children |
| Procs.FamilyIsReachable | intermux/system/procs.py:172-197 | a pid is in the family exactly when a chain of parent-to-child links, each child admitted, leads to it from a seed |
| Procs.FamilyOwned | intermux/system/procs.py:172-197 | a family of pids of one user, taken with that user, holds only that user's pids |
| Procs.Descendants | intermux/system/procs.py:172-197 | ends on every table, cycles included, with the family of the given pids, each once |
| Procs.FindAppProcs | intermux/system/procs.py:153-169 | exactly the listed processes that run the application by name or path, in the order of the table, of the user when given, never this process |
| Machine.Host.Terminate | intermux/system/procs.py:222-239 | every given pid above 1 other than this process gets one signal, nobody else gets any; survivors are exactly those of them still listed after the wait, and with force they were signalled a second time |
| Firewall.EnsureNatIdempotent | intermux/system/firewall.py:126-132 | a second ensure_nat changes nothing, and the three rules are there after the first |
| Firewall.RemoveUndoesEnsure | intermux/system/firewall.py:126-141 | remove_nat after ensure_nat gives back chains that did not hold the rules, order included |
| Firewall.OthersUntouched | intermux/system/firewall.py:126-141 | adding or deleting a rule never moves, drops or repeats another rule |
| Firewall.RuleTargets | intermux/system/firewall.py:38-58 | the three rules on a packet: what leaves the subnet by the interface is masqueraded, what comes from the subnet is accepted, and of what goes to it only packets of related or established connections |
| Firewall.NatMeaning | intermux/system/firewall.py:126-132 | ensure_nat on chains with any other rules: what no rule took before is masqueraded exactly when it leaves the subnet by the interface; the forward rules that were missing decide before all others; every other packet fares as before |
| Firewall.LineRoundTrip | intermux/system/firewall.py:97-106 | a listed line turns into the deletion of the very rule it shows, in its own table |
| Firewall.LineSelects | intermux/system/firewall.py:70-94 | a line is listed exactly when its rule has a non-negated -s or -d of a pool subnet |
| Firewall.OwnRulesSelected | intermux/system/firewall.py:38-94 | the three rules of every namespace subnet are found by the listing |
| Firewall.SelectsIff | intermux/system/firewall.py:61-78 | a rule selects the pool exactly when a source or destination match that is not negated is one of 10.200.1.0/24 to 10.200.254.0/24 |
| Firewall.DeletingAllListed | intermux/system/firewall.py:144-163 | one deletion per listed line leaves exactly the rules that select no pool subnet, in order |
| Firewall.DeletingListedLeavesKept | intermux/engine.py:647-650 | one deletion per line a filter drops leaves exactly the lines it keeps, in order |
| Routing.EnsuredIffFits | intermux/system/routing.py:172-180 | the replaces all go through exactly when no wanted route hides behind another of its destination and metric |
| Routing.EnsureConverges | intermux/system/routing.py:162-184 | ensure_policy ends with exactly the wanted routes if and only if the starting table has neither a hidden wanted route nor a hidden default without gateway |
| Routing.UniqueKeysConverge | intermux/system/routing.py:162-184 | in particular it converges from every table with at most one route per destination and metric |
| Routing.WantedSurvive | intermux/system/routing.py:181-182 | whichever deletions fail, no wanted route goes; when none fails, only the wanted ones stay |
| Routing.EnsureIsIdempotent | intermux/system/routing.py:162-184 | on a complete table ensure_policy changes nothing |
| Routing.ShadowWitness | intermux/system/routing.py:145-159 | a concrete table on which the deletion of a stray default takes the wanted default |
| Routing.HiddenWitness | intermux/system/routing.py:172-180 | a concrete table on which the replace of the wanted default is refused |
| Routing.ReplacesAreExact | intermux/system/routing.py:162-184 | on a table with routes of InterMux's own kinds only, one per destination and metric, all replaces go through and leave exactly the wanted routes |
| Routing.TrailKeepsShape | intermux/system/routing.py:162-184 | wherever ensure_policy stops on such a table it is still one, and exact once the replaces are done |
| Routing.TrailKeepsRouting | intermux/system/routing.py:169-182 | at every step the table is not empty once the first replace is done, and all wanted routes stay once the replaces are done |
| Routing.NoWrongUplink | intermux/system/routing.py:162-192 | over any run of link drops, gateway changes and cut-short passes from an installed table, traffic goes to the bound interface, the namespace's veth or nowhere |
| Routing.TightExit | intermux/system/routing.py:102-103 | by a table that keeps to its interface, traffic off the subnet leaves by the interface while its default is there and is unreachable otherwise |
| Routing.PassRestores | intermux/engine.py:577-582 | after any such run one whole pass restores the exact table, with nothing to delete |
| Routing.TrailKeepsNoLeak | intermux/system/routing.py:162-184 | wherever ensure_policy stops on a tight table it is still tight, and when it goes through the table is exact |
| Adopt.PickSlot | intermux/system/adopt.py:69-75 | the lowest free slot; none exactly when all 200 are taken |
| Adopt.SlotsAreApart | intermux/system/adopt.py:38-47 | slots share no mark, table or priority with each other, nor a table or priority with a namespace |
| Adopt.OneTable | intermux/system/adopt.py:81-124 | what the rules of one marking table do to a packet of its group and to any other packet |
| Adopt.AllTables | intermux/system/adopt.py:81-124 | the same for all loaded tables together: a packet is treated by its own group's table only |
| Adopt.AdoptionMeaning | intermux/system/adopt.py:81-124 | chain, then fwmark rule, then slot table, for any rule list in which the rule of the slot stands behind local, namespace and other slots' rules: port 53 stays unmarked, IPv6 other than ::1 is rejected, IPv4 of connections the group opened leaves by the adopted interface or is unreachable |
| Adopt.RepliesRestored | intermux/system/adopt.py:104-124 | a reply of a marked connection gets exactly that mark back whatever else is loaded |
| Adopt.TableComplete | intermux/system/adopt.py:320-336 | true exactly when the interface default and an unreachable fallback are both listed |
| Adopt.RouteCommands | intermux/system/adopt.py:283-295 | the IPv4 route commands complete a slot's table and keep it to its interface |
| Adopt.OwnSlotSafe | intermux/system/adopt.py:283-295 | the same on any table that only InterMux wrote to, whatever an earlier adoption left there |
| Adopt.OwnListedSafe | intermux/system/adopt.py:320-336 | on such a table a healthy listing means that it keeps to the interface |
| Adopt.SlotStaysSafe | intermux/system/adopt.py:395-408 | re-writing either route keeps a slot's table to its interface |
| Adopt.ReplaceKeepsComplete | intermux/system/adopt.py:371-375 | re-writing either route never makes a complete table incomplete |
| Record.State.ForgetIface | intermux/state.py:79-83 | subnet, DNS and limit of the interface go, nothing else |
| Record.InterfacesApart | intermux/engine.py:226-230 | two interfaces of a good record never share a subnet, address, namespace, table or priority, nor a table or priority with an adoption |
| Record.AdoptionsApart | intermux/engine.py:728-766 | two recorded adoptions never share a slot, mark, table or priority, nor a table or priority with a namespace |
| Record.NewHost | intermux/state.py:69-77 | where InterMux has never run the invariant holds |
| Record.UnplumbSparesOthers | intermux/engine.py:926-947 | tearing one interface down, completely or in part, leaves the plumbing of every other as it is |
| Record.UnplumbedIsGone | intermux/engine.py:926-947 | a teardown whose steps all work leaves nothing of the interface |
| Record.ForgetKeepsCovered | intermux/engine.py:534-543 | once nothing of an interface is left its record can go and coverage still holds |
| Record.SweptCovered | intermux/engine.py:534-543 | the same for several interfaces torn down in one pass |
| Machine.Host.EnsureNamespace | intermux/system/netns.py:138-144 | the namespace is there on success, nothing changes on failure, and only a recorded interface gets one |
| Machine.Host.EnsureVeth | intermux/system/netns.py:257-281 | the pair is there on success, and at most it was added on failure |
| Machine.Host.EnsureNat | intermux/system/firewall.py:126-132 | on success the chains are those of ensure_nat, and at every step the rules of other subnets are untouched |
| Machine.Host.EnsurePolicy | intermux/system/routing.py:162-184 | every step leaves the table on the trail of replaces and deletions, other tables and rules alone; success adds the rule; without a failed command it succeeds exactly when no wanted route is hidden, and the table is exactly the one the lemmas of Routing describe; on tables only InterMux writes to it then always succeeds and success means the exact table |
| Machine.Host.TeardownPlumbing | intermux/engine.py:926-947 | every step is tried, any failing reported one makes the call fail; what is gone is told exactly, and it is everything when no command failed, and on success unless an unlooked-at removal of this call failed |
| Machine.Host.ApplyPolicy | intermux/system/adopt.py:359-383 | on success rules and complete routes; at every step the loaded marking table has its rule and both routes if it had, and the table keeps to the interface if it did; on tables only InterMux writes to it succeeds without a failed command and success means a table that keeps to the interface |
| Machine.Host.ApplyNft | intermux/system/adopt.py:232-242 | the marking table is loaded as a whole, only on top of the rule and both routes |
| Machine.Host.RemoveSlotPolicy | intermux/system/adopt.py:429-436 | on success no rule and no route of the slot is left; with the marking table gone first the order is kept at every step |
| Machine.Host.ReleaseGroup | intermux/system/adopt.py:201-214 | no process joins any group, and on success the group is gone |
| Machine.Host.ReleasePlumbing | intermux/engine.py:802-814 | group, policy and marking table are each tried; nothing is left unless one of them failed; the order as in ReleaseSlot |
| Machine.Host.RollbackAdopt | intermux/engine.py:734-738 | the slot is empty and the group gone unless a step of this rollback failed, and marks had a complete table at every step unless one did |
| Machine.Host.ReleaseSlot | intermux/engine.py:809-810 | a release without a failed command keeps the marking order at every step exactly when no marking table was loaded, since rule and routes go first |
| Machine.ReleaseOrderWitness | intermux/engine.py:809-810 | concrete: the first step of the release of an adopted slot leaves marks without their rule |
| Idle.LiveWithout | intermux/engine.py:888-906 | dropping one binding takes no liveness from the others |
| Idle.BusyKeepsBinding | intermux/engine.py:525-530 | whatever the list order and recorded pids, a namespace with processes that had a binding keeps one, and one without keeps none |
| Idle.SurvivorsLive | intermux/engine.py:525-530 | every binding that survives the drop loop is live among the survivors |
| Idle.SecondPassIsQuiet | intermux/engine.py:514-544 | a second pass over what a first pass leaves drops, tears down and releases nothing |
| Idle.PassKeepsGood | intermux/engine.py:514-544 | a pass keeps the record invariant |
| Idle.BindingLive | intermux/engine.py:892-906 | _binding_live computes Live, which Idle.LiveIff spells out |
| Idle.LiveIff | intermux/engine.py:888-906 | live exactly when the namespace holds a process and, if another binding shares it, some process of it is the recorded pid's or reached from it by child links (any process when no pid is recorded) |
| Idle.SurvivorsAre | intermux/engine.py:524-530 | of the bindings, in their order, exactly those stay that have such a process, or are the last of a busy namespace none of whose bindings has one |
| Idle.DropDead | intermux/engine.py:524-530 | the in-place drop loop ends with exactly the survivors |
| Idle.DropEmptyGroups | intermux/engine.py:518-523 | adoptions of readable empty groups go with group, rules, routes and marks, the others keep theirs, and no binding's plumbing is touched |
| Idle.PassRecordIs | intermux/engine.py:514-544 | the record after a pass in terms of processes and groups alone: which bindings and adoptions stay, in which order, and that an interface keeps subnet, DNS and limit exactly when its namespace holds a process |
| Idle.TearIdle | intermux/engine.py:534-539 | exactly the interfaces without binding and process are torn down; the rest of the plumbing is as it was, also when a teardown raises |
| Idle.TeardownIdle | intermux/engine.py:514-544 | the whole pass: the new record, told by processes and groups alone; no binding goes whose recorded pid reaches a process in its namespace; interfaces torn down completely unless a removal of this pass failed, all others untouched, namespaces with processes and groups with members stay; a raised failure leaves the record as it was |
| Idle.PassTwice | intermux/engine.py:514-544 | two passes in a row: whichever commands of the second fail, it drops, tears down and releases nothing, and record and kernel stay as they are |
| Watch.CheckIsExact | intermux/watch.py:47-66 | the check is true exactly when the pass would tear down or release something, or an unbound interface is busy |
| Watch.TornAreIdle | intermux/engine.py:532-539 | whatever the bindings, a pass tears down exactly the recorded interfaces whose namespaces hold no process |
| Watch.PassChangesIff | intermux/engine.py:514-544 | a pass changes the record exactly when such an interface, an empty readable group or a stale binding exists |
| Watch.CheckIsRightIff | intermux/watch.py:47-66 | the check agrees with "a pass would change something" exactly when something is idle, or a busy unbound interface and a stale binding are both there or both absent |
| Watch.QuietCheckMeansQuietPass | intermux/watch.py:47-66 | when the check is false a pass tears down and releases nothing; it only drops bindings of namespaces that keep another |
| Watch.PassQuietsCheck | intermux/watch.py:47-66 | after a pass the check is true only for busy interfaces without binding |
| Watch.YesWithNothingToDo | intermux/watch.py:49-60 | concrete: the check is true and a pass changes nothing |
| Watch.NoWithABindingToDrop | intermux/watch.py:49-60 | concrete: the check is false and a pass drops a stale binding |
| Stop.PidsOfBounds | intermux/engine.py:868-885 | the pids of a binding run in its namespace under the user; a lone binding of a busy namespace has at least one |
| Stop.BindingPids | intermux/engine.py:868-885 | exactly the pids Stop.PidsIff spells out, each once |
| Stop.PidsIff | intermux/engine.py:868-885 | in the namespace, under the user: what runs the application by name or path, or is reached from the recorded pid by child links of the user; all of the namespace exactly when there is none and no other binding shares it |
| Stop.StopApp | intermux/engine.py:283-296 | exactly the binding's own pids and what of the user is below them are signalled, once each; reported as stopped or, if still listed, as left |
| Stop.KillApp | intermux/engine.py:299-308 | exactly the user's processes that run the application by name or path, and what of the user is below them, are signalled, and those left a second time with force; reported as stopped or left |
| Build.BuildAll | intermux/engine.py:214-230 | on success the plumbing stands; on success or failure the other interfaces keep theirs; on tables only InterMux writes to success means the exact table, and it succeeds unless a command failed |
| Build.LaunchAndRecord | intermux/engine.py:236-274 | a launch that worked replaces the application's entry of the interface with a pid above 1; any failure leaves the saved record |
| Build.WithBindingIs | intermux/engine.py:266-273 | the entry stands last, in place of the one of the same application and interface; all others stay in order and nothing else changes |
| Build.RollbackBind | intermux/engine.py:194-205 | nothing exactly while a binding or process uses the namespace, else nothing is left of the interface (unless a removal of this rollback failed) and of its record |
| Engine.ChooseSubnet | intermux/engine.py:177-180 | the recorded subnet, else the lowest one that neither a record nor a network of the host uses; none exactly when there is none |
| Engine.RequestedInv | intermux/engine.py:166-183 | the record of a validated request, saved before anything is built, keeps the invariant, loadable values included |
| Engine.RequestedIs | intermux/engine.py:166-183 | subnet, DNS choice and limit of the interface are the asked ones (0 or nothing both ways is no limit), and every other interface, the bindings and the adoptions are as before |
| Engine.UndoneBindIsForgotten | intermux/engine.py:194-205 | undoing a bind on an interface that was not recorded gives the old record back |
| Engine.RunningPids | intermux/engine.py:147-152 | what counts as running: by name or path, or in a namespace of a binding of the application; all of it the user's |
| Engine.CheckRunning | intermux/engine.py:153-164 | "ask" goes no further exactly when something runs and names all of it; "close" signals exactly what runs and what is below it, and goes no further exactly when some of that is left; "separate" takes the separate profile exactly when something runs or it was asked to keep it |
| Engine.Bind | intermux/engine.py:119-191 | refused exactly for a missing or unusable interface, for what runs or is left (as in CheckRunning), without a free subnet, or when the first save failed, with nothing changed; bound: the record entry by entry, the profile, standing plumbing, wanted routes, and exactly these on tables only InterMux writes to; failed: the exact record left by the rollback, which is skipped exactly when something uses the namespace; without a failed command it never fails, unless another program hid a wanted route; other interfaces untouched in every case |
| Actions.RestartApp | intermux/engine.py:427-441 | the entry's processes and what is below them are told to go, and nobody else; with one of them left nothing is started; the application comes back on the same interface, namespace and profile; only its pid changes in the record, and nothing when the restart fails |
| Actions.MoveApp | intermux/engine.py:457-485 | only when it is bound there and the other interface is usable is it told to go, with what is below it, and with one left nothing is moved; the entry moves with its profile and every other entry stays; when the old entry could not be dropped both are recorded; else the bindings stay; third interfaces are untouched, settings included |
| Actions.DropMoved | intermux/engine.py:478-484 | the old entry goes, and the old plumbing exactly when no binding and no process uses it |
| Actions.RemoveNamespace | intermux/engine.py:488-511 | exactly what the user runs there and what of the user is below it is signalled; kept exactly when any process is left in it; removed: exactly its bindings, subnet, DNS and limit go, and the plumbing |
| Actions.SetLimit | intermux/engine.py:390-402 | the limit (none for 0 or nothing both ways) is recorded exactly on success, nothing else changes, and only for an interface with a namespace |
| Actions.SetDns | intermux/engine.py:405-424 | the choice is recorded exactly on success, nothing else changes, and only for an interface with a namespace |
| Refresh.RefreshOne | intermux/engine.py:561-582 | a table that kept to its interface still does; it is exact when the pass went through; an interface that is down is left alone; exactness needs a table only InterMux writes to or one that kept to its interface |
| Refresh.RefreshRoutes | intermux/engine.py:547-583 | the same for every recorded interface, with nothing but routes, rules and NAT changed; without a failed command every bindable one is exact and, in a full pass, has its NAT rules |
| Refresh.ExactTableIff | intermux/system/routing.py:116-134 | a table is complete exactly when it holds the default through interface and gateway with metric 100, the unreachable default with metric 1000, the subnet through the veth, and nothing else |
| Refresh.RefreshAdoptions | intermux/system/adopt.py:411-426 | slots keep marking table and rule, and tables that kept to their interface still do; without a failed command every bindable adoption has both rules and both routes, and on tables only InterMux writes to nothing else |
| Refresh.RefreshAll | intermux/watch.py:128-131 | both passes together: without a failed command, on tables only InterMux writes to, every usable recorded interface has exactly these routes (and its NAT rules in a full pass), and every adoption of a usable interface exactly its rules and routes |
| Refresh.DroppedStaysTight | intermux/system/routing.py:187-190 | losing a device's routes leaves every tight table tight |
| Refresh.Rounds | intermux/watch.py:109-133 | over any number of link drops and passes, each failing anywhere, tight tables of namespaces and adoptions stay tight, and adoptions keep marking table and rule |
| Adoptions.Candidates | intermux/engine.py:711-722 | exactly the pids Adoptions.CandidateIff spells out, all of them the user's |
| Adoptions.CandidateIff | intermux/engine.py:711-722 | reached by child links of the user from one of the user's processes that runs the application by name or path, on the host's network, and in no adoption's group |
| Adoptions.MovePids | intermux/engine.py:743-749 | every pid reported as moved is in the group, and nobody but candidates joined it; without a failed command the new members are exactly the candidates that were still the same process right before the write |
| Adoptions.AdoptApp | intermux/engine.py:700-787 | declined exactly when the interface, the processes or the slots do not allow it; taken: some candidate joined the group, only candidates did, and without a failed command all that were still there; the lowest free slot, rules, complete routes and marking table, recorded at the end of the list, and the slot's table keeps to the interface whatever was left in it; failed: empty slot, no group, no record unless a step of the rollback failed, and without a failed command only when no candidate was still there; at every step the slot's marks have their rule and both routes, unless such a step failed |
| Adoptions.ReleaseAdoption | intermux/engine.py:817-835 | only the owner or the administrator; exactly this entry goes from the record, exactly when the group is empty and the save worked; the order of marks and routes as in Machine.Host.ReleaseSlot |
| Adoptions.WithAdoptionInv | intermux/engine.py:763-771 | recording an adoption on a slot and with an id no other has keeps the invariant |
| Marks.RulesInOrder | intermux/system/adopt.py:276-280 | local table, namespaces, slots and the rest of the host stand in order of priority |
| Marks.SlotRuleStands | intermux/system/adopt.py:276-280 | the rule of a slot is in that list, with no other rule before it that could take its packets |
| Marks.InForceTreats | intermux/system/adopt.py:81-124 | on a kernel of the invariant, with the rule list and tables that kernel has, one packet of the group of an adoption whose marking table and rule are there and whose table keeps to its interface is treated as Adopt.AdoptionMeaning says |
| Marks.AdoptionHolds | intermux/system/adopt.py:81-124 | the same for all packets, whatever order the tables were loaded in and whatever else the host routes; Runs.RunScript applies it to every step of every run |
| Marks.AdoptAndRefresh | intermux/engine.py:700-787 | this is so after adopt, whatever an earlier adoption left in the slot's table, and any number of link drops and passes, each failing anywhere |
| Reset.PrunedKeeps | intermux/engine.py:608-650 | what reset removes leaves namespace, veth, rule, routes and NAT rules of every interface that stays |
| Reset.OwnRuleNets | intermux/engine.py:642-650 | the NAT rules of a subnet are kept exactly when its interface stays |
| Reset.KeepsIff | intermux/engine.py:647-650 | a NAT or forwarding rule is left alone exactly when it selects none of 10.200.1.0/24 to 10.200.254.0/24, or the subnet of an interface that stays is a word of it |
| Reset.OwnDroppedIff | intermux/engine.py:642-645 | a from-rule goes exactly when it is the one of an index of no interface that stays |
| Reset.ResetGood | intermux/engine.py:656-664 | the record reset saves is good |
| Reset.ResetRecordIs | intermux/engine.py:608-664 | of the saved bindings, in order, exactly those in a busy namespace are kept; subnet, DNS and limit of an interface exactly when its namespace is busy; no adoption |
| Reset.ResetCovered | intermux/engine.py:608-664 | when only what stays is left, the new record covers it |
| Reset.ResetCoversIff | intermux/engine.py:608-664 | from any kernel and record, whatever failed before: once only what stays is left, the new record covers it exactly when every busy namespace was recorded and no masquerade rule of a staying subnet names another interface |
| Reset.StaleMasqueradeWitness | intermux/engine.py:647-650 | concrete: a masquerade rule of a staying subnet for another interface stays and is not covered |
| Reset.UnrecordedWitness | intermux/engine.py:608-612 | concrete: a busy namespace no record knows stays and is not covered |
| Reset.ResetTwiceSame | intermux/engine.py:608-664 | a second reset saves the same record |
| Resetting.DeleteLines | intermux/engine.py:647-650 | exactly the lines that name no subnet that stays are deleted from a chain, order of the rest kept, unless a delete of this call failed |
| Resetting.DeleteRules | intermux/engine.py:642-645 | exactly the InterMux rules of subnets that do not stay go, unless a delete of this call failed |
| Resetting.SweepGroups | intermux/system/adopt.py:513-520 | the empty groups go, those with members stay |
| Resetting.ResetAll | intermux/engine.py:586-667 | with a user given, exactly that user's processes in InterMux namespaces and what is below them are signalled; busy are exactly the namespaces some process is still in; the new record as Reset.ResetRecordIs says; everything but the interfaces with busy namespaces goes, those keep everything; no marking table, slot rule or empty group is left; when record and kernel agree afterwards; all of it for every reset during which no removal failed, whatever failed before |
| Resetting.ResetTwice | intermux/engine.py:586-667 | a second reset after one that went through, whichever of its steps fail, changes neither the record nor anything in the kernel |
| Runs.RunOnce | intermux/watch.py:109-140 | nothing is written when there is nothing to do, and no state when the check is false; when it is true the pass is made as a whole, or a command failed and the record is as before; without a failed command, on tables only InterMux writes to, everything recorded then stands as Refresh.RefreshAll says |
| Runs.InvIsSound | intermux/state.py:70-83 | what the invariant means: distinct subnets, derived fields, unique entries, everything in the kernel owned by a recorded interface |
| Runs.RunScript | intermux/engine.py:119-835 | any sequence of all actions, each failing or dying anywhere, with any changes of processes, cgroup members and links between: every step is sound, everything in the kernel is recorded as long as no removal was lost since record and kernel last agreed, adoptions in force are treated as promised, and the record of every step is read back from its state file |
| Dns.RedirectRules | intermux/system/netns.py:389-408 | the loops build the rule blocks of both transports; none exactly when an address is invalid or none is IPv4 |
| Dns.RedirectMeaning | intermux/system/netns.py:389-408 | for every packet: UDP or TCP to port 53 ends at a listed server, unchanged if it was one, else the first; everything else is left alone |
| Dns.StubQueriesLeave | intermux/system/netns.py:406 | a query to a loopback stub leaves through the veth with the namespace's address |
| Dns.OrderIsStable | intermux/engine.py:47-49 | a permutation, stable for both kinds, answering servers first |
| Dns.NoneOrAllAnswered | intermux/engine.py:47-49 | unchanged when none or all answered |
| Dns.RedirectsToAnswering | intermux/engine.py:52-80 | after the reordering stray queries go to a server that answered, if an IPv4 one did |
| Dns.AutomaticAlwaysRedirects | intermux/engine.py:39-44 | the automatic list is the interface's IPv4 gateways and 1.1.1.1 and 9.9.9.9, so it always has a server to redirect to, the gateways first |
| Dns.NamespaceNsswitch | intermux/system/netns.py:195-227 | every hosts line is rewritten, other lines stay; none exactly when nothing changes |
| Dns.HostsRewritten | intermux/system/netns.py:195-227 | no `resolve`, always `dns`, other services in order, and a second rewrite changes nothing |
| Dns.UnresolvedAre | intermux/system/netns.py:209-218 | of the services and actions of a hosts line, in order, exactly those stay that are no `resolve` and do not stand behind one with only actions in between |
| StateFile.ReadIsValid | intermux/state.py:109-296 | every entry read from any JSON object is valid |
| StateFile.SavedIsLoaded | intermux/state.py:104-149 | every valid state is loaded as it was saved |
| StateFile.LoadIsStable | intermux/state.py:104-296 | for every JSON object what is read is a fixpoint of print-then-parse |
| StateFile.ReadableIffValid | intermux/state.py:109-296 | the states that can be read are exactly the valid ones |
| StateFile.StateFromDict | intermux/state.py:109-149 | the loops read exactly what the specification reads |
| StateFile.PrintedBindingReads | intermux/state.py:192-240 | a valid binding is read back from its fields |
| StateFile.PrintedAdoptionReads | intermux/state.py:249-296 | a valid adoption is read back from its fields |
| StateFile.ReadServers | intermux/dnsconf.py:66-77 | check_servers: none exactly when the count or one item is wrong, else exactly the addresses of the items in canonical form, none twice |
| StateFile.CanonicalValid | intermux/dnsconf.py:25-77 | what check_servers returns is one to four different usable addresses in canonical form |
| StateFile.UsableIff | intermux/dnsconf.py:25-34 | usable are the addresses outside 127.0.0.0/8, 169.254.0.0/16, 224.0.0.0/4 and 240.0.0.0/4 other than 0.0.0.0 |
| StateFile.PrintedLimitReads | intermux/system/shaping.py:28-40 | a valid limit is read back; so each direction is in range or absent, and one is present |
| Reading.BindingIff | intermux/state.py:192-240 | field by field, for any JSON value: a binding is read exactly from the objects that stand for it |
| Reading.AdoptionIff | intermux/state.py:249-296 | the same for an adoption, whose group, slot and interface must be what InterMux itself writes |
| Reading.LimitIff | intermux/system/shaping.py:28-40 | a limit is read exactly from an object that gives each direction nothing, null or a number from 0.064 to 100000, and one of them a number |
| Reading.ReadAllAre | intermux/state.py:109-149 | a list gives all of its readable items, in their order |
| Reading.FieldsIff | intermux/state.py:109-180 | a subnet is taken for an interface exactly when the name and the pool subnet are valid, servers and limit exactly when they can be read |
| Persistence.NamesApart | intermux/system/netns.py:40-48 | different suffixes give different namespace and veth names, and the names pass the state file's check |
| Persistence.FileIsValid | intermux/state.py:109-149 | the file of every record of the invariant is a valid state |
| Persistence.EngineStatesSurvive | intermux/state.py:299-345 | loading what was saved for any record of the invariant returns the same state; Runs.RunScript applies it to every step of every run |
| Persistence.FileTellsRecord | intermux/state.py:104-106 | no two records of the invariant are saved alike |
| Socks5.StreamReader.ReadExactly | windows/core/proxy_engine.py:141-177 | for any chunking the next n bytes, or none exactly when the stream is shorter |
| Socks5.HelloRoundTrip | windows/core/proxy_engine.py:137-178 | whatever a client encodes (sections 3 to 5 of RFC 1928) is recovered and exactly those bytes are consumed |
| Socks5.ParseSound | windows/core/proxy_engine.py:137-178 | and a stream is taken for a connection request only if it is such an encoding |
| Socks5.ConnectIff | windows/core/proxy_engine.py:137-178 | byte for byte: a stream is a request for an address and a port, with the given bytes behind, exactly when it has the layout of sections 3 to 5 of RFC 1928 |
| Socks5.BeginningDecides | windows/core/proxy_engine.py:152-174 | after a greeting, version, command and address type decide: code 2 exactly for a version other than 5 or a command other than 1, else code 1 exactly for a type other than 1, 3 and 4 |
| Socks5.GreetedIff | windows/core/proxy_engine.py:141-150 | the method choice is sent exactly when the stream starts with a whole greeting |
| Socks5.WithoutBeginning | windows/core/proxy_engine.py:141-154 | a stream without a whole greeting and the four bytes behind it gets no answer to a request |
| Socks5.Handshake | windows/core/proxy_engine.py:132-204 | unless a write failed, the outcome and every byte sent are a function of the client's bytes and of the dial, error replies included, whatever the chunks are |
| Socks5.SentBytes | windows/core/proxy_engine.py:183-204 | every byte of every answer: code 0 with the bound address after success, 4 after a timeout, 5 when refused, 3 after any other failure |
| Socks5.ConnectsWhereAsked | windows/core/proxy_engine.py:132-204 | a client that encodes a destination gets that destination, with exactly its payload left to relay |
| Socks5.ChoiceIsRightIffOffered | windows/core/proxy_engine.py:141-150 | whatever follows a greeting, the answer begins with the choice section 3 of RFC 1928 asks for exactly when "no authentication" was offered |
| Socks5.AnswerIsRightIffConnect | windows/core/proxy_engine.py:156-161 | code 2 is the answer exactly for a wrong version or command; code 7 is used as section 6 asks exactly when the command is CONNECT |
| Socks5.Relay | windows/core/proxy_engine.py:240-255 | what is written is a prefix of what was read, all of it unless a write failed, and all there was unless a read or a write failed; the destination is closed |
| Socks5.RelaysAreFaithful | windows/core/proxy_engine.py:206-219 | under any interleaving of both relays, and with either side lost at any time, the same holds each way |
| Socks5.RunsEnd | windows/core/proxy_engine.py:206-255 | every interleaving ends, within a bound given by the two streams |
| Socks5.NeverStuck | windows/core/proxy_engine.py:206-255 | and does not stop before both relays have finished |
| Socks5.ProxyRegistry.GetOrStart | windows/core/proxy_engine.py:271-281 | one running proxy per address: the running one's port, else a new one, else nothing is registered |
| Socks5.ProxyRegistry.StopFor | windows/core/proxy_engine.py:290-293 | that proxy stops and is forgotten, the others keep running |
| Socks5.ProxyRegistry.StopAll | windows/core/proxy_engine.py:283-288 | every proxy stops and is forgotten |
| Traffic.FedKept | intermux/system/traffic.py:75-98 | exactly the configured number of rates, none negative, whatever clock and counters do |
| Traffic.HistoryAddsUp | intermux/system/traffic.py:75-122 | with steady samples that fit the history, rates times elapsed times add up exactly to transferred(), in each direction |
| Traffic.HistoryIsRates | intermux/system/traffic.py:75-98 | for any clock and counters: one rate for each step at which the clock moved on, behind zeros, the last of them up to the configured number |
| Traffic.RateOverTime | intermux/system/traffic.py:94-95 | a rate times its time is the growth of the counter, and 0 where it went backwards |
| Traffic.TransferredSince | intermux/system/traffic.py:96-122 | transferred() counts from the last sample at which a counter went backwards while the clock moved on, or from the first one |
| Traffic.TransferredExact | intermux/system/traffic.py:96-122 | it counts from the last sample at which a counter went backwards, and is the growth since, exactly when the clock had moved on there |
| Traffic.MissedReset | intermux/system/traffic.py:90-97 | concrete: counters go backwards while the clock stands still, and bytes moved since are not counted |
| Traffic.RateTracker.Update | intermux/system/traffic.py:75-98 | absent names are forgotten, sampled names take their sample, a name back after absence starts anew |
| Traffic.Feed | intermux/system/traffic.py:75-98 | after any sequence of updates the tracker knows the names of the last one, each with exactly the track of its samples since it was last absent |

## Left out

- Tk interface, command line, website, Windows GUI, firefox and chromium profiles, desktop entries: no hard state.
- /proc, sysfs, sockets, setns, sysctl, firewalld and tc calls: commands without effect on the modelled objects are `Machine.Host.Other`; shaping is only its recorded limit.
- Listings (processes, namespaces, links, rules, chains, routes, nft tables) are taken as reliable snapshots; `iptables -C` likewise. A failing listing of one table in the route pass is modelled.
- Several reads of the process table inside one decision are one snapshot; pid reuse between listing and signalling is not modelled.
- The state lock: actions run one after another. save_state is one step that happens or does not.
- ip_forward_prev, log paths, TMPDIRs, resolv.conf and nsswitch.conf files on disk: they are no part of the engine's record or kernel here (their contents are in dns.dfy and statefile.dfy).
- md5: suffixes are an arbitrary function, one-to-one on the interfaces in use.
- IPv6 of adoption slots is one rule and one blackhole; a host without IPv6, where both are skipped, is not modelled.
- Conntrack entries that keep a released mark (forget_marked_connections).
- ip rules of other programs in front of the slots (priorities up to 2200), and their nft tables: everything else of the host stands behind.
- secrets.token_hex: the id of a new adoption is arbitrary but not in use.
- start_time and the real uid of a candidate right before its move: which candidates exited or were reused by then is an input of adopt (`gone`).
- Firewall.NatMeaning: a foreign rule decides a packet or passes it on, by an arbitrary function; jumps to other chains are part of that function.
- Records with adoptions that loading accepts but adopt never writes (marks that do not fit the slot): the engine starts from a record of the invariant, such as the empty one.
- Decoding of a SOCKS5 domain name: the name is the bytes that were sent.
- Machine.Host.Terminate: which processes are listed after the wait is arbitrary; that a forced kill ends a process is not claimed.
- Build.LaunchAndRecord: the process table after a launch is arbitrary, so nothing is said about the new process.
- Actions.SetLimit: the effect on tc is not modelled, only the record.
- Refresh.Rounds: link drops and passes only. A teardown that dies between the flush of a table and the save leaves a
  recorded interface with an empty table, which is not tight, so the statement does not extend to all actions.
- Machine.Host.TeardownPlumbing: untrust_veth and _remove_tmpdirs may fail and are reported, but what they remove is not modelled.
- Traffic.HistoryAddsUp: exact rationals, where the program has floats.
