# A verified model of the ACME webhook's scheduling, alerting and challenge store

The webhook renews certificates, publishes ACME DNS-01 challenges in Bind zones kept in Git, and hands
certificates to deployment targets.  This project models the parts of it that decide *when* and *what*, and
proves what holds over every run.

| file | models |
|---|---|
| `Calendar.dfy` | deploy windows: `is_within_window`, `next_window_start` |
| `Policy.dfy` | the two laws of a window that scheduling relies on |
| `DeploySchedule.dfy` | every run of certificate submissions and deferred jobs, with their history |
| `DeployManager.dfy` | the `DeployManager` class, tied to `DeploySchedule.dfy` method by method |
| `CertMonitor.dfy` | the expiry monitor: alerts, the automatic renewal trigger, deferred renewals |
| `DnsProbe.dfy` | the propagation polling loop |
| `Names.dfy` | `split`, `join`, `removeprefix` and `Path.stem` on texts |
| `ZoneHandler.dfy` | zone resolution, adding and removing a challenge record |
| `ChallengeServer.dfy` | concurrent `acme_auth` and `acme_cleanup` requests under the lock, and the endpoints |
| `Positions.dfy` | lists of positions in increasing order |
| `Wrappers.dfy` | `Option` and `Result` |

`dafny verify dfyconfig.toml` verifies everything.

## Main results

- **Freshness** (`DeploymentsAreFreshIff`): in every run of submissions and timer firings every submission is
  accounted for, every target has or awaits the most recent certificate, and no older certificate lands after a
  newer one, if and only if the configuration satisfies `KeepsFresh`.  Both of its halves are tests of the configured
  names and windows.  `NeverClash`: two targets with windows, of which one name continues the other after a dash, open
  every day and each is open when the other one closes (`NeverClashIff`).  `GapFree`: a window does not wrap past
  midnight, or ends at 00:00, or allows every weekday, or allows none (`GapFreeIff`).  `DeployManager` inherits the
  result in terms of its own tables (`StaysFreshOnSchedule`).
- **Window safety** (`OnlyInWindowIff`): all hand-overs to a target happen in its window, although the deferred
  job does not look at the window again, if and only if the window is ever open.
- **The search for the next opening** (`NextIsLeastOpening`, `FindsEarliestIff`, `MonotoneIff`, `IdempotentIff`):
  what it finds, and exactly when it is the earliest open instant.
- **Linearizability** (`EveryRunIsLinearizable`, `ServeIsProtocolRun`): for every interleaving of any number of
  challenge requests and of pushes by others, the remote is the sequential outcome of the requests in the order in
  which they took the lock, and each request reports what it would report sequentially.  The endpoints are runs of
  that protocol.
- **Refinement** (`EveryRunRefinesMap`): the published challenges of every domain are those of a plain map from
  challenge names to values (the record of section 8.4 of RFC 8555).
- **Alerts and renewals** (`AlertHistoryExact`, `CheckRequestsExactly`, `NoRequestTwice`, `RenewalsStaySound`,
  `FiringOnTimeRunsIff`): which alerts were sent over any history of checks, which certificates of a check call for a
  renewal, at most once per domain ever, and that a renewal requested is run or pending.
- **Polling** (`CheckPropagation`): the loop computes the first complete round or the timeout.

## Where the code differs from its documentation

The model follows the code; each difference names the member that shows it.

- `next_window_start` is documented to return the nearest opening of the window (app/config.py:72).  A window that
  wraps past midnight is also open from 00:00 on each allowed day, and the search does not see that opening
  (`FindsEarliestIff`).  A certificate submitted then is handed over at once and later overwritten by the older
  one that is still pending (`SkippedOpeningGoesStale`).
- Deployment is documented to proceed only within the window (app/config.py:16-19).  With `start` equal to `end` or
  without an allowed weekday the window is never open, and deferred jobs fire outside it (`OnlyInWindowIff`).
- Job ids join target and domain with a dash, so that `f5` with `paris-x.com` and `f5-paris` with `x.com` share one
  (`JobIdsInjectiveIff`); one of two such jobs is then lost, unless one of the two windows is always open
  (`NeverClashIff`, `ClashLosesJob`).
- An empty list of target names deploys to no target, not to all of them (app/models.py:85-86): every target is
  called as often as it is listed (`OneCallPerOccurrence`).
- A poll interval of zero can poll forever; the loop ends exactly under `Ends` (`PollsForeverIff`).

## How the model reads the code

- An instant is a number of microseconds; a time zone is a fixed offset from UTC.
- Runs of the schedulers are studied for any window whose next opening is the argument exactly when that is open,
  and later otherwise; the configured windows are such (`Policies.PolicyOf`), and the results about them are then
  stated in terms of their fields.
- A batch of deployments happens at the one instant that `deploy` reads before its loop.
- The scheduler is a map from job id to job.  Deployment jobs fire at their instant, in order, and before any request
  with the same timestamp; renewal jobs may also fire late.  A job leaves the table before it runs.
- A target's `deploy` is an oracle that returns a result or raises.  A name server is an oracle that answers as
  expected or not, per round and position.  A certificate check takes the list read from the vault.
- Submissions are numbered, and histories kept, only in the specification; no decision depends on them.
- The zone directory is a table from existing paths to the file each resolves to, or to nothing if that lies outside
  the directory.  A zone is a map from record names and types to values.  A record name outside the zone's origin is
  an error on adding and is not found on removing, as in the DNS library.
- The lock is a mutex, pushes succeed unless the remote has moved on, and nobody else pushes between one request's
  pull and its push; pushes of other records, on existing zone files, may happen at any other time.

## Model

| member | source | states |
|---|---|---|
| Calendar.WrapTestsAgree | app/config.py:62-64 | the lexicographic hour and minute test for wrapping is the test on minutes since midnight that the search uses |
| Calendar.TruncatedMinutesSuffice | app/config.py:86-93 | comparing truncated minutes with the start is comparing the exact local time with the window's start |
| Calendar.OpenMeans | app/config.py:51-68 | in plain arithmetic, a window is open by local weekday and time of day only: start inclusive, end exclusive, on the day of the instant itself even when it wraps |
| Calendar.ComputeNextWindowStart | app/config.py:71-102 | the bounded loop computes the specified search and moves past exactly the days counted by it, which the lemmas below characterise |
| Calendar.DaySearchFinds | app/config.py:97-102 | the search lands on the first allowed day, within 7 tries if a weekday is allowed |
| Calendar.NextIsLater | app/config.py:79-102 | the result is the argument exactly when the window is open, and strictly later otherwise |
| Calendar.NextIsLeastOpening | app/config.py:71-102 | from a closed instant the result is the least later instant at time-of-day start on an allowed weekday |
| Calendar.FallbackIffNoDay | app/config.py:97-102 | the loop moves past fewer than 7 of its 14 days, and past all of them, falling through, exactly when no weekday is allowed |
| Calendar.WaitIsAtMostAWeek | app/config.py:92-102 | a closed instant waits at most 7 days, and strictly less unless start equals end |
| Calendar.NextIsOpenIff | app/config.py:71-102 | the window is open at the result, for any argument, exactly when it is ever open |
| Calendar.IdempotentIff | app/config.py:71-102 | searching again from the result changes nothing, exactly for windows that are ever open |
| Calendar.OnlyMorningsAreSkipped | app/config.py:62-68 | an open instant passed over lies before the end on the result's own day, in a wrapping window, seen from a day not allowed |
| Calendar.FindsEarliestIff | app/config.py:71-102 | the result is the earliest open instant exactly when the window does not wrap, or ends at 00:00, or no day is allowed, or the day of the argument is allowed |
| Calendar.GapFreeIff | app/config.py:71-102 | the windows for which the result is always the earliest open instant |
| Calendar.MonotoneIff | app/config.py:71-102 | later arguments give no earlier results, for exactly the same windows |
| Calendar.WeeklyPeriod | app/config.py:51-102 | both functions commute with shifting time by 7 days |
| Calendar.OneAlwaysOpenIff | app/config.py:51-68 | at every instant one of two windows, in any time zones, is open exactly when both open every day and each is open when the other closes |
| Policies.GaplessIff | app/config.py:71-102 | the configured windows whose search never skips an open instant |
| Policies.LeadsToOpenIff | app/config.py:71-102 | the search always ends at an open instant exactly for windows that are ever open |
| DeploySchedule.JobIdsInjectiveIff | app/targets/manager.py:76 | job ids determine target and domain exactly when no registered name continues another one after a dash |
| DeploySchedule.RunSound | app/targets/manager.py:129-152 | in every run each job and each hand-over carries the arguments of its own submission, at once or at the instant it was deferred to |
| DeploySchedule.NothingIsLost | app/targets/manager.py:68-101 | in every run each submission is exactly one of pending, handed over once, and superseded by a deferral of the same pair before its instant |
| DeploySchedule.ClashLosesJob | app/targets/manager.py:76-84 | two targets that can share an id and wait at the same time have a run that loses a job |
| DeploySchedule.NothingIsLostIff | app/targets/manager.py:68-101 | nothing is ever lost exactly when no two targets clash |
| DeploySchedule.DashFreeNamesNeverClash | app/targets/manager.py:76 | names that never continue another name after a dash are enough for that, whatever the windows |
| DeploySchedule.NeverClashIff | app/targets/manager.py:76-84 | configured targets never clash exactly when those whose names can share an id have complementary windows |
| DeploySchedule.DeploymentsAreAccountedIff | app/targets/manager.py:68-101 | no submission of any run is ever lost exactly when the configured names and windows satisfy that |
| DeploySchedule.StaysFresh | app/targets/manager.py:129-153 | under the two conditions every pending job is for the latest submission of its pair, and hand-overs of a pair are in submission order |
| DeploySchedule.FreshFollows | app/targets/manager.py:129-153 | then each target has, or awaits, the most recently submitted certificate |
| DeploySchedule.SkippedOpeningGoesStale | app/targets/manager.py:129-153 | a window that skips an open instant has a run in which an older certificate stays pending behind a newer one |
| DeploySchedule.FreshIffGapless | app/targets/manager.py:86-153 | for windows of any kind, accounting, freshness and order hold over all runs exactly when no targets clash and no window skips an open instant |
| DeploySchedule.OnlyWhenOpenIff | app/targets/manager.py:86-152 | for windows of any kind, all hand-overs to a target are in its window exactly when the search always ends at an open instant |
| DeploySchedule.DeploymentsAreFreshIff | app/targets/manager.py:129-153 | accounting, freshness and order hold over all runs exactly when the configured names and windows satisfy both conditions |
| DeploySchedule.OnlyInWindowIff | app/targets/manager.py:86-152 | all hand-overs to a target, in all runs, are in its window exactly when the window is ever open |
| DeploySchedule.SomeJobCanFire | app/targets/manager.py:76-84 | whenever jobs are pending one of them can fire next |
| DeploySchedule.BatchJobs | app/targets/manager.py:129-150 | a batch leaves one job per deferred name, strictly in the future, and every other job untouched |
| DeployManagement.DeployManager.constructor | app/targets/manager.py:40-57 | each configured name once, in the order of first entries; its last entry gives the target, and its own window, or the default one if it has none |
| DeployManagement.LastEntryIsRegistered | app/targets/manager.py:49-57 | the tables that the loop builds hold that for every last entry |
| DeployManagement.DeployManager.Deploy | app/targets/manager.py:103-164 | without names, every registered target is deployed to, in order; with names, those, and it fails exactly if one is unknown, changing nothing; the batch is one submission per name, with results and calls as specified below |
| DeployManagement.DeployManager.LookUp | app/targets/manager.py:125 | the lookup succeeds exactly if all names are known, and fails with the first unknown one |
| DeployManagement.ResultsArePositional | app/targets/manager.py:128-164 | results match the request by position: a deferral strictly in the future where the window is closed, else what the target returned or an error report |
| DeployManagement.OneCallPerOccurrence | app/targets/manager.py:129-163 | every target not deferred is called once per occurrence, whatever the other calls did, and nothing else is called |
| DeployManagement.CallsAreInOrder | app/targets/manager.py:129-163 | a batch appends its calls in the order of the request |
| DeployManagement.DeployManager.DeployTo | app/targets/manager.py:130-163 | one round calls or defers, never both, and refines one numbered submission |
| DeployManagement.DeployManager.FireDue | app/targets/manager.py:86-101 | firing removes exactly that job, calls its target once, if still registered, with the job's arguments, and continues the run |
| DeployManagement.DeployManager.StaysFreshOnSchedule | app/targets/manager.py:129-153 | while the scheduler fires in time, the manager loses nothing, and its job table or else its last call holds the latest certificate of every target and domain |
| DeployManagement.DeployManager.StaysInWindowOnSchedule | app/targets/manager.py:86-152 | while the scheduler fires in time, every hand-over to a target whose window is ever open is in that window |
| CertMonitoring.AlertHistoryExact | app/cert_monitor.py:187-201 | over any history of checks exactly the configured thresholds ever met are alerted, once each, at the first check that met them |
| CertMonitoring.EverMetIff | app/cert_monitor.py:190-193 | a threshold was ever met iff some observation meets it, and iff it is at or above the least days left ever seen |
| CertMonitoring.PercentageByCrossMultiplying | app/cert_monitor.py:169-185 | the percentage test is an integer comparison of days with a share of the lifetime |
| CertMonitoring.WantedIff | app/cert_monitor.py:203 | a renewal is wanted at or below the threshold of days, or at or below the percentage of a positive known lifetime |
| CertMonitoring.WantedStaysWanted | app/cert_monitor.py:203 | with unchanged dates a wanted renewal stays wanted as days pass |
| CertMonitoring.TriggersIff | app/cert_monitor.py:203-206 | an observation leads to a renewal exactly if there is a command and it is the first of its domain for which a renewal is wanted |
| CertMonitoring.ObservedExactly | app/cert_monitor.py:208-214 | a check makes one observation per certificate with known days, in list order, with that certificate's own domain, days and lifetime |
| CertMonitoring.CheckRequestsExactly | app/cert_monitor.py:203-214 | a check calls for a renewal exactly for the certificates that are the first of their domain ever to want one, in order, each when it is looked at |
| CertMonitoring.RequestsAreNewRenewals | app/cert_monitor.py:204-206 | these calls are exactly what the check adds to the automatic renewals |
| CertMonitoring.NoRequestTwice | app/cert_monitor.py:204-206 | no domain gets two automatic calls, neither in one check nor over all checks |
| CertMonitoring.CheckWithoutScheduler | app/cert_monitor.py:107-148 | without a scheduler every call runs the command at once, and nothing is deferred |
| CertMonitoring.RunRenewMeans | app/cert_monitor.py:103-148 | without a command nothing happens; a closed window defers to its next start under the domain's id, if the scheduler exists; otherwise the command runs now |
| CertMonitoring.AutoRenewalsExact | app/cert_monitor.py:203-206 | checks trigger renewal at most once per domain ever, and exactly for the domains some check wanted renewed |
| CertMonitoring.RenewalsStaySound | app/cert_monitor.py:103-128 | in every run renew commands run only in the window and only for requested domains, and each request was run since or its domain's one job is pending |
| CertMonitoring.FiringRunsOrDefers | app/cert_monitor.py:107-128 | in any run a job fired inside the window leaves the table and runs its command; outside it no command runs and it is pending again, for a strictly later instant |
| CertMonitoring.FiringOnTimeRunsIff | app/cert_monitor.py:107-128 | in any run a job fired exactly on time runs its command exactly if the configured window is ever open |
| CertMonitoring.CommandsRunInWindow | app/cert_monitor.py:107-128 | in any run every renew command ran while the configured window was open |
| CertMonitoring.CheckExtendsRun | app/cert_monitor.py:203-214 | a check acts on commands and jobs as a valid extension of the run by its renewal requests |
| CertMonitoring.CertMonitor.RunRenewal | app/cert_monitor.py:103-148 | the same, on the monitor's own job table and commands, in terms of its configuration |
| CertMonitoring.CertMonitor.SendAlerts | app/cert_monitor.py:190-201 | the loop keeps, per domain, exactly the thresholds ever met, and sends only the new ones |
| CertMonitoring.CertMonitor.CheckDayThreshold | app/cert_monitor.py:187-206 | alerts, sent warnings and renewing domains stay functions of all observations; the renewal is called exactly if there is a command, it is wanted, and no earlier observation of the domain wanted it |
| CertMonitoring.CertMonitor.RunCheck | app/cert_monitor.py:208-227 | a check appends the observations of the certificates with known days, by position; without a configuration it changes nothing but the status list |
| CertMonitoring.CertMonitor.FireDue | app/cert_monitor.py:120-128 | a renewal job leaves the table before it runs or is deferred again |
| CertMonitoring.CertMonitor.Start | app/cert_monitor.py:249-265 | a started scheduler makes a first check, with which a run of renewals begins; nothing happens without a configuration |
| CertMonitoring.CertMonitor.Stop | app/cert_monitor.py:267-270 | the pending renewals are dropped with the scheduler, and all else stays |
| DnsProbe.CheckPropagation | app/dns_probe.py:73-135 | nothing is pending iff some round in time is complete; then the first such round decides, else the last round before the timeout, after exactly as many rounds as start in time |
| DnsProbe.RoundsAreCeiling | app/dns_probe.py:110-128 | a poll that times out makes as many rounds as the timeout divided by the interval, rounded up |
| DnsProbe.EmptyIffCompleteInTime | app/dns_probe.py:110-135 | either way of ending leaves nothing pending exactly when some round in time is complete |
| DnsProbe.PollsForeverIff | app/dns_probe.py:110-128 | for intervals not negative the loop is left exactly if time runs out or some round is complete |
| DnsProbe.PollRound | app/dns_probe.py:111-118 | one round selects the answering and the other servers |
| DnsProbe.PositionsExact | app/dns_probe.py:114-118 | a selection has exactly the positions with its answer, in increasing order |
| DnsProbe.SelectedAtPositions | app/dns_probe.py:114-118 | the selected servers are the listed ones at those positions, in the listed order |
| DnsProbe.CompleteSelectsAll | app/dns_probe.py:120-125 | nothing is pending exactly in a complete round, which matches the whole list in order |
| DnsProbe.StartIs | app/dns_probe.py:128 | a round starts after its number times the interval |
| Names.JoinSplit | app/zone_handler.py:63-65 | joining the labels of a text gives it back |
| Names.TailIsSuffix | app/zone_handler.py:63-65 | joining the labels from some position on gives a suffix at a label boundary |
| Names.SuffixIsTail | app/zone_handler.py:63-65 | every suffix at a label boundary is tried |
| Names.StemIsZoneNameIff | app/zone_handler.py:23-24 | the stem of every zone file is the zone's name exactly for suffixes of one dot and a dot-free text |
| ZoneHandler.ComputeZonePath | app/zone_handler.py:61-74 | the loop computes the specified resolution |
| ZoneHandler.ResolvesLongestSuffix | app/zone_handler.py:61-74 | the resolved file is that of the longest suffix, at a label boundary, with a file in the directory; none only if no suffix has one |
| ZoneHandler.PrefixesAreStripped | app/zone_handler.py:62 | the challenge of a domain and of its wildcard resolve as the domain itself, and other names are left alone |
| ZoneHandler.IsUnderIff | app/zone_handler.py:115-122 | a name belongs to a zone iff it is the zone's name or ends with a dot and that name |
| ZoneHandler.ChallengeIsInZone | app/zone_handler.py:115-122 | without links, and with a one-dot suffix, the challenge name is under the resolved zone's origin |
| ZoneHandler.AddInsertsOrReplaces | app/zone_handler.py:111-131 | adding publishes exactly the token for the domain, and keeps every other record, file and domain; it fails exactly without a zone file, or outside its zone |
| ZoneHandler.RemoveDeletes | app/zone_handler.py:160-173 | removing unpublishes the domain, keeps everything else, and reports whether the record was there, in its zone |
| ZoneHandler.RemoveUndoesAdd | app/zone_handler.py:111-173 | removing after adding hits the same file, and restores a repository that had no such record |
| ZoneHandler.PerformRefinesMap | app/zone_handler.py:111-173 | each operation acts on every domain's challenges as on a plain map |
| ZoneHandler.PerformTouchesOneRecord | app/zone_handler.py:111-173 | an operation changes at most its own record in the resolved file, and nothing if it fails or skips |
| ZoneHandler.PerformIsWrite | app/zone_handler.py:111-173 | each operation is one write or none, decided by the entries alone, with the outcome that it reports |
| ZoneHandler.PerformKeepsResolution | app/zone_handler.py:61-74 | no operation changes which file serves a domain |
| ZoneHandler.DifferentDomainsCommute | app/zone_handler.py:111-173 | operations on different domains commute, in effect and in outcome |
| ChallengeServer.EveryRunIsLinearizable | app/main.py:477-499 | in every interleaving the lock is exclusive, the remote is the sequential result in lock order, and outcomes are the sequential ones; timed-out requests have no effect |
| ChallengeServer.HolderCanAdvance | app/main.py:557-584 | in every run the holder of the lock has a next step up to its release |
| ChallengeServer.EveryRunRefinesMap | app/main.py:477-584 | in every run the published challenges of a domain are those of a plain map over the requests in lock order |
| ChallengeServer.AddedStaysPublished | app/main.py:484-494 | a served authorization stays published until a later request for the same domain |
| ChallengeServer.NoRequestBreaks | app/git_handler.py:30-68 | no request ends with a Git error, and with plain files and a one-dot suffix none is out of its zone |
| ChallengeServer.Webhook.UpdateClone | app/git_handler.py:30-41 | a clean or missing clone becomes the remote; a dirty one is left alone |
| ChallengeServer.Webhook.CommitAndPushClone | app/git_handler.py:59-68 | a clean tree is not committed; otherwise it is, and the remote becomes the working tree unless it has moved on |
| ChallengeServer.Webhook.AddTxtRecord | app/zone_handler.py:111-131 | the edit in place is the specified addition, on the working tree only |
| ChallengeServer.Webhook.RemoveTxtRecord | app/zone_handler.py:160-173 | the edit in place is the specified removal, and reports the resolved file exactly if it removed something |
| ChallengeServer.ServeIsProtocolRun | app/main.py:477-499 | after any run of the protocol, a request served without interference goes through its steps to the remote, clone and outcome that the endpoints below compute |
| ChallengeServer.Webhook.AcmeAuth | app/main.py:466-499 | under the lock one sequential operation with its outcome, or a Git error on a dirty clone; without the lock nothing; the lock is free again on every path |
| ChallengeServer.Webhook.AcmeCleanup | app/main.py:550-584 | the same for a cleanup |

## Left out

- DeployManagement.DeployManager.Deploy: the time that earlier targets of a batch take is not modelled; all calls of a batch happen at the instant read before the loop.
- DeploySchedule.OnlyInWindowIff: a job that the scheduler runs late is not covered for deployments, because the code does not look at the window again.
- CertMonitoring.RenewalsStaySound: before the scheduler is started, and after it is stopped, renewals are not deferred; the runs are those of a started scheduler.
- CertMonitoring.CertMonitor.Start: a second start without a stop, which would leave two schedulers running, is not modelled.
- ChallengeServer.Webhook.UpdateClone: rebasing a commit that a rejected push left in the clone is not modelled, because pushes are assumed to succeed.
- ZoneHandler.ChallengeIsInZone: letter case of names is significant in the model.
- The HTTP layer, authentication, rate limits, logging, metrics and the dashboard.
- The choice of name servers and timeouts around the polling loop in `app/main.py`.
- The F5, Ivanti and Exchange clients, PFX conversion, the vault, and the nsupdate backend.
- Daylight-saving transitions, and dates outside the range of `datetime`.
- Rounding in the percentage test, which is over reals here.
- Parsing and printing of zone files, and record lifetimes.
- Crashes in the middle of a request, and restarts, which lose the in-memory jobs.
- The scheduler's threads and its handling of misfired jobs.
- The counts of certificates by status, and what the alert webhook does with an alert.
