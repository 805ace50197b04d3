# OVN-Kubernetes node health reconcilers, modelled in Dafny

This project models three small control loops of ovn-kubernetes as pure
functions and proves properties about them.

- **The OVN database manager's raft reconcilers** (`ovndb_manager.dfy`). There are four:
  - the local-identity check, which kicks entries left at the local address under an old server ID;
  - the membership check, which kicks peers whose address is not a configured cluster member;
  - the election-timer tuner, which moves the leader's timer toward its target and at most doubles it per cycle;
  - the database reset, which moves the database file to a backup and asks the server to exit.

  The admin channel (`ovs-appctl` to the database server) is a function
  from command to reply, so every possible server behaviour is covered.
  The cluster-status report that this channel returns is parsed and
  rendered in `raft_status.dfy`. The reconcilers' implementation file is
  not part of this model. Their behaviour is modelled from the test suite:
  its mocked replies, its expected admin calls and its expected errors.
  `ovndb_scenarios.dfy` restates the test cases over the general model.
- **The IP rule manager** (`ip_rule_manager.dfy`). It keeps a list of
  managed policy-routing rules, some marked for deletion, and a set of
  owned priorities, and reconciles them against the host's rule listing.
  The host is a listing (absent when listing fails) plus the set of
  operations it refuses.
- **The IPsec tunnel monitor** (`ipsec.dfy`). It covers:
  - reading the configured tunnel names from the `conn` lines of the configuration;
  - parsing `ipsec trafficstatus` lines;
  - the tunnel check;
  - the consecutive failure and success counters, kept as Go `int32`;
  - the taint and untaint decisions.

`text.dfy` holds the pieces of Go's `strings` and `strconv` that the code
relies on (`Split`, `Trim`, `TrimLeft`, `TrimRight`, decimal parsing), and
`wrappers.dfy` the `Option` type.

## Model

| member | source | states |
|---|---|---|
| Text.Split | go-controller/pkg/ipsec/ipsec.go:143 | `strings.Split` on one character: at least one piece, no piece holds the separator, and joining the pieces with it gives back the input |
| Text.SplitJoin | go-controller/pkg/ipsec/ipsec.go:148 | splitting undoes joining whenever no piece holds the separator |
| Text.SplitMany | go-controller/pkg/ipsec/ipsec.go:143-147 | a line splits into two or more pieces exactly when it holds the separator |
| Text.Trim | go-controller/pkg/ipsec/ipsec.go:153 | `strings.Trim` gives a slice of the input with only cut characters around it and none at its own ends, so exactly the leading and trailing cut characters are removed |
| Text.TrimPadded | go-controller/pkg/ipsec/ipsec.go:153 | a string padded with cut characters on both sides trims back to the string, as a quoted tunnel name does to the name |
| Text.ParseNat | go-controller/pkg/ovndbmanager/ovndbmanager_test.go:401-407 | a number is read exactly when the text is a non-empty run of decimal digits, so the timer "a" is rejected |
| Text.ShowNat | go-controller/pkg/ovndbmanager/ovndbmanager_test.go:450-475 | a rendered timer value reads back as the same number |
| RaftStatus.ParseAddress | go-controller/pkg/ovndbmanager/ovndbmanager_test.go:41 | an accepted address is a valid `proto:host:port` triple that renders back to the input text |
| RaftStatus.ParseRenderAddress | go-controller/pkg/ovndbmanager/ovndbmanager_test.go:41 | every valid address renders to text that parses back to it |
| RaftStatus.UrlAddressRejected | go-controller/pkg/ovndbmanager/ovndbmanager_test.go:129-147 | an `http://host:port` address is rejected, because its host part begins with `//`, which no host may contain |
| RaftStatus.ParseRenderServerLine | go-controller/pkg/ovndbmanager/ovndbmanager_test.go:43-61 | a rendered `Servers:` table line parses back to the same entry: short ID, address, and self or last-message liveness |
| RaftStatus.FieldValue | go-controller/pkg/ovndbmanager/ovndbmanager_test.go:22-39 | a `Key: value` field is found exactly when some line starts with the key, and the value found is the rest of such a line |
| RaftStatus.ReportFieldsRoundTrip | go-controller/pkg/ovndbmanager/ovndbmanager_test.go:22-39 | in a rendered report, the `Address`, `Role` and `Election timer` fields read back as the values rendered |
| RaftStatus.ReportServersRoundTrip | go-controller/pkg/ovndbmanager/ovndbmanager_test.go:39-61 | in a rendered report, the server table reads back as the entries rendered, in order |
| RaftStatus.ReportLinesRoundTrip | go-controller/pkg/ovndbmanager/ovndbmanager_test.go:22-39 | splitting a rendered report, every line of the status template included, at newlines gives back its lines |
| OvnDbManager.StaleIdsExact | go-controller/pkg/ovndbmanager/ovndbmanager_test.go:48-54 | the selected IDs are exactly those of entries at the local address whose short ID differs from the local one |
| OvnDbManager.StaleIdsNone | go-controller/pkg/ovndbmanager/ovndbmanager_test.go:177-184 | a table without stale entries selects nothing |
| OvnDbManager.KickStale | go-controller/pkg/ovndbmanager/ovndbmanager_test.go:148-176 | the stale IDs are kicked in order; the first refused kick stops the run and is reported with its ID; no error means every kick was accepted |
| OvnDbManager.EnsureLocalServerId | go-controller/pkg/ovndbmanager/ovndbmanager_test.go:97-184 | each error case, decided by the replies alone, with its exact calls: the server ID cannot be read, an ID is shorter than four characters, the status cannot be read, the address cannot be parsed; otherwise exactly the two queries followed by the kicks of the report's stale IDs, with the error of that kick run |
| OvnDbManager.KnownMembers | go-controller/pkg/ovndbmanager/ovndbmanager_test.go:248-249 | only the two database names have known members |
| OvnDbManager.UnknownIdsExact | go-controller/pkg/ovndbmanager/ovndbmanager_test.go:56-67 | the selected IDs are exactly those of peers, never the local server, whose address is not a known member |
| OvnDbManager.KickAll | go-controller/pkg/ovndbmanager/ovndbmanager_test.go:297-315 | every unknown ID is kicked in order whatever happened before; the refused IDs are exactly the ones whose kick failed |
| OvnDbManager.EnsureClusterMembership | go-controller/pkg/ovndbmanager/ovndbmanager_test.go:268-315 | an invalid name fails before any call; a failed status query is reported; otherwise the status query is followed by one kick per unknown peer, and the error, present exactly when some kick was refused, lists the refused IDs |
| OvnDbManager.ElectionTimerStep | go-controller/pkg/ovndbmanager/ovndbmanager_test.go:415-475 | hold exactly at the target; a raise never passes the target or twice the current value, and reaches one of the two |
| OvnDbManager.RaiseSchedule | go-controller/pkg/ovndbmanager/ovndbmanager_test.go:450-475 | repeated single steps climb strictly and reach the target in finitely many cycles |
| OvnDbManager.EnsureElectionTimeout | go-controller/pkg/ovndbmanager/ovndbmanager_test.go:390-475 | a failed status query is reported; a follower stays idle; a leader with an unreadable timer fails after the query alone; a raise is exactly one change command, whose refusal is reported with the value it tried to set |
| OvnDbManager.ResetRaftDb | go-controller/pkg/ovndbmanager/ovndbmanager_test.go:542-575 | without the database file nothing happens but the error; with it, the file is renamed to a distinct backup and the server is asked to exit; the error is exactly a refused exit, and none when the exit is accepted |
| OvnDbManager.ResetTwiceFails | go-controller/pkg/ovndbmanager/ovndbmanager_test.go:542-575 | a reset leaves no database file, so a second reset fails without effect whatever the server does |
| OvnDbManager.ResetRenames | go-controller/pkg/ovndbmanager/ovndbmanager_test.go:549-575 | a reset to a fresh backup name keeps every other file and the number of files |
| OvnDbScenarios.LocalServerIdOnReport | go-controller/pkg/ovndbmanager/ovndbmanager_test.go:186-230 | over any well-formed report, the local check issues its two queries and then the kicks of exactly the report's stale IDs |
| OvnDbScenarios.LocalServerIdOneKick | go-controller/pkg/ovndbmanager/ovndbmanager_test.go:148-176 | with one stale ID, the calls are the two queries and that kick, and the error is exactly the kick's refusal |
| OvnDbScenarios.StaleMemberKicked | go-controller/pkg/ovndbmanager/ovndbmanager_test.go:163-176 | the stale fixture entry `3936` is kicked, and nothing else |
| OvnDbScenarios.StaleKickRefused | go-controller/pkg/ovndbmanager/ovndbmanager_test.go:148-162 | a refused kick of `3936` is reported as that ID's kick failure |
| OvnDbScenarios.ConsistentTableNoKick | go-controller/pkg/ovndbmanager/ovndbmanager_test.go:177-184 | the consistent fixture needs only the two queries |
| OvnDbScenarios.UrlAddressScenario | go-controller/pkg/ovndbmanager/ovndbmanager_test.go:129-147 | a URL `Address` fails the check before any kick |
| OvnDbScenarios.StaleKicksSettle | go-controller/pkg/ovndbmanager/ovndbmanager_test.go:163-184 | once the kicked entries have left the table, nothing is stale |
| OvnDbScenarios.LocalServerIdSettles | go-controller/pkg/ovndbmanager/ovndbmanager_test.go:163-184 | after the kicks took effect, the next pass issues only the two queries and reports no error |
| OvnDbScenarios.MembershipOnReport | go-controller/pkg/ovndbmanager/ovndbmanager_test.go:317-360 | over any reply, the membership check kicks exactly the unknown peers, in table order, and with every kick accepted reports no error |
| OvnDbScenarios.UnknownMembersKicked | go-controller/pkg/ovndbmanager/ovndbmanager_test.go:297-315 | with the fixture's known members, exactly `c10c` and `fc43` are kicked |
| OvnDbScenarios.UnknownFixtureIds | go-controller/pkg/ovndbmanager/ovndbmanager_test.go:56-67 | the unknown IDs of the fixture table are `c10c` then `fc43` |
| OvnDbScenarios.SelfNeverUnknown | go-controller/pkg/ovndbmanager/ovndbmanager_test.go:289-296 | the local server is never kicked as unknown |
| OvnDbScenarios.InvalidNameRejected | go-controller/pkg/ovndbmanager/ovndbmanager_test.go:268-275 | the misspelt name `OVN_Northboundd` is rejected before any admin call |
| OvnDbScenarios.TimerRaisedToTarget | go-controller/pkg/ovndbmanager/ovndbmanager_test.go:450-462 | a leader at 1500 ms with a 2000 ms target sets the timer to 2000 |
| OvnDbScenarios.TimerRaiseClamped | go-controller/pkg/ovndbmanager/ovndbmanager_test.go:463-475 | with a 5000 ms target the same leader sets only 3000, twice its timer |
| OvnDbScenarios.TimerNotNumeric | go-controller/pkg/ovndbmanager/ovndbmanager_test.go:401-407 | a non-numeric timer fails the leader's pass after the status query |
| OvnDbScenarios.FollowerIdle | go-controller/pkg/ovndbmanager/ovndbmanager_test.go:408-414 | a follower issues nothing beyond the status query |
| OvnDbScenarios.LeaderAtTarget | go-controller/pkg/ovndbmanager/ovndbmanager_test.go:415-421 | a leader already at its target issues nothing beyond the status query |
| OvnDbScenarios.ScenarioArgs | go-controller/pkg/ovndbmanager/ovndbmanager_test.go:614-616 | the modelled commands carry the argument lists the admin mock is keyed on |
| OvnDbScenarios.ResetWithoutDbFile | go-controller/pkg/ovndbmanager/ovndbmanager_test.go:542-548 | without the database file the reset fails with no effect |
| OvnDbScenarios.ResetMovesThenExits | go-controller/pkg/ovndbmanager/ovndbmanager_test.go:549-575 | with the file, the reset moves it to a backup and then asks the server to exit |
| IpRuleManager.FindRule | go-controller/pkg/node/iprulemanager/ip_rule_manager.go:171-182 | the first listed rule at the candidate's priority that is equal to it, and nothing when there is none |
| IpRuleManager.KeepPass | go-controller/pkg/node/iprulemanager/ip_rule_manager.go:113-133 | a managed rule stays exactly when it is wanted or its deletion was refused; the refused operations are exactly the issued ones the host refuses |
| IpRuleManager.KeepPassOps | go-controller/pkg/node/iprulemanager/ip_rule_manager.go:114-133 | an add is issued exactly for a wanted rule the host does not list, and a delete exactly for the listed copy of a marked rule |
| IpRuleManager.Sweep | go-controller/pkg/node/iprulemanager/ip_rule_manager.go:135-159 | a delete is issued exactly for each listed rule at an owned priority that no managed rule, marked or not, is equal to |
| IpRuleManager.Reconcile | go-controller/pkg/node/iprulemanager/ip_rule_manager.go:102-163 | a listing failure changes nothing; otherwise the kept rules are exactly those the pass keeps, and the reported failures are the refused operations in order |
| IpRuleManager.ReconcileOps | go-controller/pkg/node/iprulemanager/ip_rule_manager.go:114-159 | the operations issued: adds for unlisted wanted rules, deletes for listed marked rules and for unclaimed rules at owned priorities |
| IpRuleManager.ReconcileNoDup | go-controller/pkg/node/iprulemanager/ip_rule_manager.go:161 | reconciling keeps the managed list free of equal rules |
| IpRuleManager.SettledRules | go-controller/pkg/node/iprulemanager/ip_rule_manager.go:116-126 | when nothing was refused, the kept rules are exactly the wanted ones |
| IpRuleManager.ReconcileSettles | go-controller/pkg/node/iprulemanager/ip_rule_manager.go:102-163 | when nothing was refused, a second reconciliation against the host as the first left it issues no operation |
| IpRuleManager.AddAsWritten | go-controller/pkg/node/iprulemanager/ip_rule_manager.go:186-195 | `Add` as the source writes it: a no-op when any managed rule is equal, marked ones included; otherwise it appends the rule and reconciles |
| IpRuleManager.Add | go-controller/pkg/node/iprulemanager/ip_rule_manager.go:65-74 | afterwards some managed rule equal to the added one is wanted; an unchanged list is a no-op; a changed one is reconciled: a listing failure keeps the new list and reports it, otherwise the kept rules, the adds and deletes and the refused operations are exactly those of a reconciliation of the new list, and a new rule is added to the host exactly when the host does not list it |
| IpRuleManager.AddListed | go-controller/pkg/node/iprulemanager/ip_rule_manager.go:65-74 | an add that changed the list leaves a wanted rule equal to the added one listed on the host once its operations took effect |
| IpRuleManager.AppendOrRestore | go-controller/pkg/node/iprulemanager/ip_rule_manager.go:186-195 | the corrected in-memory add: it appends a new rule; otherwise it un-marks the first equal managed rule and nothing else, and reports a change exactly when that rule was marked; the list stays free of equal rules |
| IpRuleManager.MarkThenRestore | go-controller/pkg/node/iprulemanager/ip_rule_manager.go:81-87 | adding a rule back right after marking it, before any reconciliation, restores the managed list exactly |
| IpRuleManager.MarkForDeletion | go-controller/pkg/node/iprulemanager/ip_rule_manager.go:81-87 | only the first equal managed rule is marked for deletion, and nothing changes when none is equal |
| IpRuleManager.Delete | go-controller/pkg/node/iprulemanager/ip_rule_manager.go:77-92 | reconciles after marking exactly when some managed rule is equal, otherwise it is a no-op |
| IpRuleManager.DeleteForgets | go-controller/pkg/node/iprulemanager/ip_rule_manager.go:76-92 | when the host accepts every operation, no managed rule equal to the deleted one remains, so the manager stops managing it |
| IpRuleManager.DeleteRemovesFromHost | go-controller/pkg/node/iprulemanager/ip_rule_manager.go:76-92 | when the host lists each rule at most once and accepts every operation, after the delete the host's table holds no rule standing for the managed rule that was marked |
| IpRuleManager.OwnPriority | go-controller/pkg/node/iprulemanager/ip_rule_manager.go:95-100 | the priority becomes owned even when listing fails, which then changes nothing else; otherwise the reconciliation adds exactly the unlisted wanted rules and deletes exactly the listed copies of marked rules and the unclaimed rules at the owned priorities, the new one included |
| IpRuleManager.RefusedDeleteStaysMarked | go-controller/pkg/node/iprulemanager/ip_rule_manager.go:77-92 | a delete the host refuses leaves the rule managed and marked, and reports the refused delete |
| IpRuleManager.AddAfterRefusedDeleteLost | go-controller/pkg/node/iprulemanager/ip_rule_manager.go:186-195 | as written, adding back a rule whose deletion was refused is a no-op, and the next reconciliation deletes the rule and forgets it |
| IpRuleManager.AddAfterRefusedDeleteKept | go-controller/pkg/node/iprulemanager/ip_rule_manager.go:65-74 | with the corrected add, the rule is wanted again and stays listed |
| Ipsec.ConnName | go-controller/pkg/ipsec/ipsec.go:20 | a name is read exactly from lines starting with `conn ` followed by a character that is neither `%` nor white space; the name is the longest non-space run there |
| Ipsec.ConnNameOf | go-controller/pkg/ipsec/ipsec.go:20 | `conn <name>`, followed by white space or by nothing, reads back the name |
| Ipsec.DefaultSectionIgnored | go-controller/pkg/ipsec/ipsec.go:20 | a `conn %...` section is not a tunnel |
| Ipsec.TunnelsExact | go-controller/pkg/ipsec/ipsec.go:111-124 | the tunnels are exactly the names the matching lines carry |
| Ipsec.TunnelsAppend | go-controller/pkg/ipsec/ipsec.go:114-119 | the tunnels of consecutive chunks of the configuration come in line order |
| Ipsec.ParseStatusLine | go-controller/pkg/ipsec/ipsec.go:141-154 | a line is an entry exactly when it has one `:` and a `,` after it; the entry's info is the text after the `:`, and its name is the first comma piece trimmed of quotes and spaces |
| Ipsec.StatusLineOf | go-controller/pkg/ipsec/ipsec.go:143-154 | a `prefix: "name",rest` line yields that name and info |
| Ipsec.TrafficStatusExact | go-controller/pkg/ipsec/ipsec.go:140-156 | the status map holds exactly the names of well-formed lines, and the invalid lines are exactly the malformed ones |
| Ipsec.LastLineWins | go-controller/pkg/ipsec/ipsec.go:154 | a tunnel's recorded info comes from its last well-formed line |
| Ipsec.CheckTunnels | go-controller/pkg/ipsec/ipsec.go:84-100 | an unreadable configuration, a failed status command and any malformed status line each fail the check; otherwise the check fails exactly for the configured tunnels without a status entry |
| Ipsec.Missing | go-controller/pkg/ipsec/ipsec.go:93-98 | the missing tunnels are exactly the configured ones absent from the status map, each as often as it is configured |
| Ipsec.Wrap32 | go-controller/pkg/ipsec/ipsec.go:27-28 | an `int32` result equal to its input modulo 2^32 |
| Ipsec.ProbeStep | go-controller/pkg/ipsec/ipsec.go:36-47 | a failure bumps the failure counter with `int32` wrap and zeroes the success counter, and a success does the converse |
| Ipsec.CountsTrailing | go-controller/pkg/ipsec/ipsec.go:35-47 | after any run of probes, the counters are the lengths of the trailing runs of failures and of successes, wrapped to `int32` |
| Ipsec.OneCounterAtATime | go-controller/pkg/ipsec/ipsec.go:40-46 | at most one counter is non-zero |
| Ipsec.TaintNode | go-controller/pkg/ipsec/ipsec.go:69-80 | an empty node name yields no action; otherwise a taint when adding and an untaint when removing |
| Ipsec.Decide | go-controller/pkg/ipsec/ipsec.go:48-61 | taint exactly when the failures reach the threshold, untaint exactly when the successes do, and only for a named node |
| Ipsec.Monitor | go-controller/pkg/ipsec/ipsec.go:26-65 | an unnamed node is never tainted or untainted, and every request names the monitored node |
| Ipsec.MonitorTaints | go-controller/pkg/ipsec/ipsec.go:35-54 | over a run of probes, a named node is tainted at some point exactly when the failure counter reached the threshold after some probe |
| Ipsec.MonitorUntaints | go-controller/pkg/ipsec/ipsec.go:35-61 | over a run of probes, a named node is untainted at some point exactly when the success counter reached the threshold after some probe |
| Ipsec.MonitorAtMostOnePerProbe | go-controller/pkg/ipsec/ipsec.go:48-61 | with positive thresholds, the loop makes at most one taint request per probe |
| Ipsec.TaintWhenFailuresReachThreshold | go-controller/pkg/ipsec/ipsec.go:35-54 | a named node is tainted exactly when its trailing failures reach the failure threshold |
| Ipsec.UntaintWhenSuccessesReachThreshold | go-controller/pkg/ipsec/ipsec.go:35-61 | a named node is untainted exactly when its trailing successes reach the success threshold |
| Ipsec.NeverBoth | go-controller/pkg/ipsec/ipsec.go:48-61 | with positive thresholds, one cycle never both taints and untaints |

## Left out

- The OVN database manager's implementation file is not part of this model. The reconcilers are modelled from the test suite's expectations. Their exact error texts become error kinds.
- The cluster-status retry counter of the election-timer tuner (the `clusterStatusRetryCnt` field) is not modelled. A failed status query is reported each time.
- Lowering the election timer: no case in the test suite lowers it. When the target is below the current value the model issues no change.
- The status report is rendered as the test suite's status template (lines 22-39 of the test file), line for line. The `Name`, `Address`, `Role` and `Election timer` lines and the `Servers:` table come from the status. Every other line is the template's fixed text. IPv6 bracketed addresses are not modelled.
- The timer cases of the test suite fill the template's `Address` line with the database name, which is not an address. The timer scenarios therefore take any reply whose `Role` and `Election timer` fields hold the test's values, rather than the rendered template.
- The backup file name `<alias>-backup-<stamp>` is this model's own choice, since the implementation file is not part of this model. The time-derived stamp is a parameter. The reset's contract relies only on the backup name differing from the alias. The disk copy becomes a move between file names in a set.
- Netlink: `RuleList`, `RuleAdd` and `RuleDel` become the host's listing and its set of refused operations. The choice of address family (lines 198-209) is left out because it only selects which rules are listed. Applying a delete removes every copy of the rule.
- Text.ParseNat: a leading `+` or `-` sign, which Go's `strconv.Atoi` accepts, is not read; the numbers the status report carries (the election timer, the message ages) are unsigned.
- RaftStatus.ParseServerLine: the ID inside the parentheses must be a valid short ID, but it is not compared with the leading ID; the server prints the same ID twice.
- IpRuleManager.Rule: a rule's textual rendering is an abstract `key`. The model does not assume that the rendering includes the priority.
- `loadHostRules`, the `Run` ticker loop and the mutex are left out. They only call `add` and `reconcile` on a timer and under a lock.
- IpRuleManager.Sweep: the source visits owned priorities in Go map order. The model issues the sweep's deletes in listing order. The set of deletes is the same.
- IpRuleManager.ReconcileSettles: it requires managed rules without duplicates and a host that does not list two different rules standing for the same one. Without these, a second pass can legitimately act.
- IPsec: file opening, `bufio.Scanner` line splitting and its errors, running `/usr/sbin/ipsec`, the sleeps, JSON encoding of the probe and logging are left out. The configuration and the status output arrive as lines, or as None when they cannot be read.
- Ipsec.TaintWhenFailuresReachThreshold: it requires fewer than 2^31 trailing failures. Beyond that the `int32` counter wraps negative and the threshold is no longer reached. `Wrap32` models the wrap itself.
- Ipsec.UntaintWhenSuccessesReachThreshold: it requires fewer than 2^31 trailing successes, for the same reason.
- Ipsec.Missing: it states which tunnels are reported and how often, but not that they come in configuration order.
- IpRuleManager.DeleteForgets: it is stated for a host that accepts every operation. A refused delete keeps the rule marked, which `IpRuleManager.RefusedDeleteStaysMarked` states.
- IpRuleManager.DeleteRemovesFromHost: it is stated for a host that accepts every operation and lists each rule at most once. A host listing two copies at different details would keep the second one.
- Ipsec.Monitor: `taintNode` always succeeds in the source, so the loop's early return on a taint error is not modelled.
- The `ovnkube-ipsec` command-line wiring is not modelled.

## Findings

| source | as written | input that shows it | evidently intended | confidence | as-written member | corrected member |
|---|---|---|---|---|---|---|
| go-controller/pkg/node/iprulemanager/ip_rule_manager.go:186-195 | `add` treats a rule that is marked for deletion but whose `RuleDel` was refused (kept at lines 116-121) as already managed, so `Add` does nothing | `Delete(r)` while the host refuses `RuleDel(r)`, then `Add(r)`: the rule stays marked, and the next reconciliation deletes it from the host and forgets it | `Add` makes the rule wanted again by un-marking it, so it stays on the host | medium, not executed | IpRuleManager.AddAfterRefusedDeleteLost | IpRuleManager.AddAfterRefusedDeleteKept |

The rest of the model uses the corrected `IpRuleManager.Add`.
`IpRuleManager.AddAsWritten` keeps the source's behaviour for comparison.
