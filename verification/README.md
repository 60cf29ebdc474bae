# A verified model of the OpenMPTCProuter VPS admin service

This project models the parts of the admin service (`admin/omradmin.py`) and of its
metrics engine (`admin/omr_metrics.py`) that carry real logic, and proves what they
promise. `dafny verify dfyconfig.toml` checks everything.

| file | component |
|---|---|
| `MptcpTransaction.dfy`, `Mptcp.dfy`, `MptcpFile.dfy`, `MptcpRuns.dfy`, `MptcpApplied.dfy` | the `/mptcp` transaction: validation, plan, snapshot, apply with read-back, rollback, the persisted sysctl file, runs of requests, and what a success applies read off the request by name |
| `Regression.dfy`, `Histories.dfy` | weighted linear regression, and forecasts and trend labels of recorded histories with gaps |
| `ReverseTags.dfy`, `ReverseForwards.dfy`, `ReverseForwardRuns.dfy`, `ReverseForwardLaws.dfy`, `ReverseForwardTargets.dfy`, `ReverseForwardFile.dfy` | XRay reverse forwards: tags, the two in-place edits, the registry they represent, their laws, where a forward leads, the guarded file write |
| `Firewall.dfy`, `FirewallRuns.dfy`, `FirewallStored.dfy` | compilation of stored ports to nftables rules, runs of the port engine, and what it stores |
| `PathPolicy.dfy` | MQVPN per-path weights and DSCP masks kept in one list |
| `RemoteIds.dfy` | MPTCP DSCP pins and weights keyed by remote id |
| `Vxlan.dfy`, `LanRoutes.dfy`, `ControlAddress.dfy` | VXLAN assignments, pushed LAN routes, the MQVPN control address |
| `Smoothing.dfy`, `Scoring.dfy`, `Heuristics.dfy`, `Watchdog.dfy` | exponential smoothing and integer weights, the heuristic scores with costs, how each metric counts, the training watchdog |
| `Common.dfy` | filtered lists, decimal text, rounding, products of reals |

State that the service updates in place is a class whose methods are proved against a
function of the old state; the laws are lemmas about those functions. In the `/mptcp`
transaction, the reverse-forward file and the maps keyed by remote id, faults are
nondeterministic choices (`*`), so a postcondition speaks about every pattern of them; the
outcomes of nft runs are parameters of the firewall engine. The other modules model no
file or push faults.

Where the service does not keep what one would expect, the model follows the code and
states exactly when the expectation holds:

- a kept last line of the sysctl file without a line ending is glued to the first new
  setting and dropped by the next request (`MptcpFile.LastRewriteWinsIff`,
  `MptcpFile.SettingsReadBackIff`, `MptcpRuns.RepeatIsQuietIff`, and at an input
  `MptcpFile.GluedInstance`); a last line of `tun0.conf` meets the same fate
  (`LanRoutes.RebuildReadsBackIff`, `LanRoutes.UnterminatedLineIsLost`);
- a knob left at zero in a later request stays live although the file no longer lists it:
  the file lists what is still live of the earlier request exactly when the later one names
  all its knobs (`MptcpRuns.StillListedIff`, `MptcpRuns.DroppedKnobStaysLive`,
  `MptcpRuns.DroppedKnobInstance`);
- a value that cannot be decoded when the rollback reads it back raises out of the endpoint
  and skips the remaining restores (`MptcpTransaction.Host.RollbackKernel`);
- `/lan` stores a LAN that does not parse before it raises: from then on no LAN reaches
  `tun0.conf` until every user's stored LANs, former ones included, parse again. A pushed
  route that nobody stores any more, for this reason or because it was dropped while
  client-to-client was off, stays pushed over every run in which nobody stores it again
  (`LanRoutes.RunAgreesIff`, `LanRoutes.UnbuiltCallAgreesIff`, `LanRoutes.BadLanBlocks`,
  `LanRoutes.OrphanStaysPushed`, `LanRoutes.BadLanInstance`, `LanRoutes.BadLanOutlived`,
  `LanRoutes.OffInstance`); where MQVPN is installed its check comes first and prevents the
  former (`LanRoutes.StrictRunAgrees`);
- `/add_user` stores user ids as text, and an IPv6 redirection that needs such an id
  formatted makes every later resynchronisation raise: the live chains freeze, whoever
  asks, until that entry is rewritten or removed (`FirewallRuns.RaisesIff`,
  `FirewallRuns.RunCompilesIff`, `FirewallRuns.FrozenRun`, `FirewallRuns.FrozenInstance`);
- after a failed nft run, repeating the same open never repairs the chains, while any
  operation that resynchronises does, such as a bulk switch to its present position
  (`FirewallRuns.RepeatedOpenRepairsNothing`, `FirewallRuns.RepairIff`);
- removing a user does not resynchronise: its firewall rules stay live, and where its entry
  had frozen the chains they are those of the last configuration that compiled, without what
  was stored since (`FirewallRuns.RemoveUserStaleIff`, `FirewallRuns.RemoveAfterRunIff`,
  `FirewallRuns.StalePortInstance`, `FirewallRuns.ThawedStaleInstance`);
- a reverse-forward client is left behind when another owner's name continues the user's
  with `-tcp`, alone or followed by a dash and more (`ReverseForwardLaws.RemoveNoStaleIff`,
  `ReverseForwardLaws.NoStaleIff`, `ReverseForwardLaws.SetThenRemoveIff`,
  `ReverseForwardLaws.StaleInstance`, `ReverseForwardLaws.RoundTripInstance`);
- an XRay restart call that raises leaves the new configuration in place and the bypass
  chain behind: for a port newly added or removed it is wrong, repeating the request any
  number of times does not bring it up to date, and of the later calls whose restart and nft
  run return as they should, exactly those that change the file do
  (`ReverseForwardFile.Host.AddPort`, `ReverseForwardFile.Host.DelPort`,
  `ReverseForwardFile.Host.RepeatAdd`, `ReverseForwardFile.Host.RepeatDel`);
- scaling all costs changes the shares as soon as an interface without a cost competes
  with one that has a cost (`Scoring.CostScaleIff`, `Scoring.CostScaleInstance`);
- an interrupted or failed weight push, or a record cut off while it is written, can leave
  an id behind that survives exactly the runs in which no request names it
  (`RemoteIds.OrphanSurvivesIff`, `RemoteIds.FaultyRunIff`, `RemoteIds.OrphanedWeight`);
- a path listed twice in MQVPN's policy keeps a dropped field exactly when a later entry
  carries it (`PathPolicy.Policy.Sync`, `PathPolicy.ClearEffect`, `PathPolicy.HiddenStays`,
  `PathPolicy.DuplicateInstance`);
- a history with a single sample is forecast as that sample, where the source's comment says
  there is no forecast (`Histories.SingleForecast`, `Histories.NoForecastIff`); and congestion
  is worth 30 points of 100 in the heuristic score, where the comment says it dominates with 60
  (`Heuristics.CongestionScale`, `Heuristics.LatencyScale`);
- a printed control address is read back only for hosts without bracket or leading
  whitespace that are not wildcards (`ControlAddress.PrintRoundTripIff`,
  `ControlAddress.MisreadInstances`).

## Model

| member | source | states |
|---|---|---|
| Mptcp.BuildSettings | admin/omradmin.py:4639-4661 | the settings built option by option are the legacy or mainline list, each optional knob only when given and offered by the kernel, the congestion control last |
| Mptcp.OfferedIff | admin/omradmin.py:4649-4660 | an optional setting is applied if and only if the request gives it and the kernel offers it |
| Mptcp.PlanWellFormed | admin/omradmin.py:4580-4661 | every accepted request yields settings with distinct managed one-line keys, the congestion control last, and NanBBR parameters exactly when an aggressiveness is given, always including the requested control's |
| MptcpTransaction.Host.AtomicWrite | admin/omradmin.py:145-166 | whatever fails, the target holds its old content or all of the new one; an error may follow the replacement; other files are kept |
| MptcpTransaction.Host.Set | admin/omradmin.py:4702-4716 | a write that passes its read-back leaves the value in place and touches no other location |
| MptcpTransaction.Host.TakeSnapshot | admin/omradmin.py:4670-4688 | a snapshot holds the true value of every location the request will write, and both files' contents |
| MptcpTransaction.Host.ApplyKernel | admin/omradmin.py:4700-4742 | what is not logged still holds its old value at every exit; success means every setting and parameter holds its value |
| MptcpTransaction.Host.ApplyFiles | admin/omradmin.py:4743-4751 | a file that is not logged is unchanged; success means both files have their new content |
| MptcpTransaction.Host.RollbackKernel | admin/omradmin.py:4754-4779 | every logged location without a recorded error holds its snapshot value again, so an error on one does not stop the others, unless the exception of an undecodable read-back leaves the rollback |
| MptcpTransaction.Host.RollbackFiles | admin/omradmin.py:4780-4797 | unless an error is recorded, each logged file has its old content or is absent again |
| MptcpTransaction.Host.Attempt | admin/omradmin.py:4699-4802 | failure atomicity: an error without "rollback incomplete" leaves kernel and both files as at entry, and only a fault during the rollback makes it incomplete or raises out of it |
| MptcpTransaction.Host.Configure | admin/omradmin.py:4564-4817 | the whole endpoint under any faults: rejection exactly by the checks and without effect, failure atomicity, complete success, containment in the requested locations, and success whenever nothing misbehaves |
| MptcpFile.JoinLines | admin/omradmin.py:4690-4698 | splitting a text into lines with their endings loses nothing |
| MptcpFile.KeptTwice | admin/omradmin.py:4690-4694 | dropping managed lines is idempotent, even where the removal joins a carriage return and a line feed |
| MptcpFile.KeptAfterRewrite | admin/omradmin.py:4690-4698 | the new file starts with the kept lines of the old one in order; rewriting again keeps the complete ones |
| MptcpFile.LastRewriteWinsIff | admin/omradmin.py:4690-4698 | a later rewrite replaces an earlier one, and repeating changes no byte, if and only if the kept text is not cut off mid-line |
| MptcpFile.SettingsReadBackIff | admin/omradmin.py:4690-4698 | the file reads back as exactly the requested settings under the same condition |
| MptcpFile.GluedInstance | admin/omradmin.py:4690-4698 | after the file "x" the request reads back as something else, and repeating it drops the line |
| MptcpFile.KeptEndsIff | admin/omradmin.py:4690-4694 | that condition read off the old file: empty, ending in a line break, or with a managed last line |
| MptcpRuns.RunFollowsLastDone | admin/omradmin.py:4663-4817 | over every run without incomplete or raising rollbacks, unrelated lines never change, and the settings file and the sysctls hold what the last successful request asked for |
| MptcpRuns.RunFollowsLastLevel | admin/omradmin.py:4663-4748 | over every such run the NanBBR parameters and the NanBBR file hold the level of the last successful request that gave one, and are untouched without such a request |
| MptcpRuns.CommitIsLive | admin/omradmin.py:4690-4751 | a success keeps the unrelated part of a sound file, and both file and kernel hold exactly the plan's settings |
| MptcpRuns.RepeatIsQuietIff | admin/omradmin.py:4750-4817 | repeating a successful request restarts nothing and keeps the file's bytes exactly when the unrelated part of the file is complete |
| MptcpRuns.DroppedKnobStaysLive | admin/omradmin.py:4648-4660 | a knob the request does not name keeps its live value while the file no longer lists it |
| MptcpRuns.StillListedIff | admin/omradmin.py:4648-4698 | of two successes in a row, the file lists every setting of the first that is still live if and only if the second names every knob of the first |
| MptcpRuns.DroppedKnobInstance | admin/omradmin.py:4648-4698 | after an accepted request with a close timeout of 5 and one without, 5 is live and not listed |
| MptcpApplied.SuccessObeys | admin/omradmin.py:4639-4751 | after a success each value of the request is live under its own sysctl name, all writable NanBBR parameters and the NanBBR file hold the aggressiveness, and a sound file lists exactly those settings: none that is not given or not offered |
| MptcpApplied.WantedIff | admin/omradmin.py:4639-4661 | the list to apply has exactly the settings the request asks for, each named option with its own field, on mainline and legacy kernels |
| MptcpApplied.AcceptedIff | admin/omradmin.py:4579-4637 | a request is accepted if and only if it breaks none of the six conditions, and is otherwise refused for the first it breaks |
| MptcpApplied.AggressivenessReadsBack | admin/omradmin.py:106-115 | the written NanBBR file reads back as the aggressiveness between 1 and 100, and as missing otherwise |
| MptcpApplied.ObeyedInstance | admin/omradmin.py:4650-4660 | scheduler "default" and path manager "fullmesh" end up under their own names |
| MptcpFile.ManagedIff | admin/omradmin.py:4690-4694 | a line is managed if and only if it contains one of the two names |
| MptcpFile.BreakCodes | admin/omradmin.py:4690-4694 | lines end at the ten code points that end a line for Python |
| MptcpFile.LinesInstance | admin/omradmin.py:4690-4694 | a carriage return with its line feed ends one line, a line separator another, a tab none |
| Regression.NormalEquations | admin/omr_metrics.py:993-1009 | the residuals of the fitted line balance, alone and weighted by time, also when all times coincide and the slope is 0 |
| Regression.ErrorDecomposition | admin/omr_metrics.py:993-1009 | any line's weighted squared error is the fitted line's plus the weighted squared gap between the two lines |
| Regression.LeastSquares | admin/omr_metrics.py:993-1031 | no line has a smaller weighted squared error, and the lines that reach it are exactly those agreeing with the fit at every sampled time |
| Regression.SlopeBounds | admin/omr_metrics.py:993-1009 | the slope lies between any bounds of the pairwise difference quotients, whatever the weights |
| Regression.FitOfHistory | admin/omr_metrics.py:993-1031 | the same bounds for a history of samples, and slope 0 when no two of its times differ |
| Histories.ValidSelects | admin/omr_metrics.py:1022-1026 | the samples are the entries with both time and value, all of them, in order |
| Histories.NoForecastIff | admin/omr_metrics.py:1027-1028 | there is no forecast if and only if no entry is complete, and no slope if and only if at most one is |
| Histories.SingleForecast | admin/omr_metrics.py:1027-1028 | a single complete entry is its own forecast |
| Histories.CoincidingForecast | admin/omr_metrics.py:1001-1031 | when all recorded times coincide the slope is 0 and the forecast the average of the recorded values |
| Histories.ForecastMinimises | admin/omr_metrics.py:993-1031 | forecasts lie on one line, and no line has a smaller squared error over the recorded entries, weighted by their age at the latest one |
| Histories.ExactExtrapolation | admin/omr_metrics.py:1012-1031 | a history that lies on a line, gaps or not, is extrapolated along that line exactly |
| Histories.TrendFollowsRates | admin/omr_metrics.py:1229-1238 | labels follow the rates between recorded entries: never falling under non-negative rates, never rising under non-positive ones, the right label past the threshold, and stable within it |
| Histories.TrendOfLine | admin/omr_metrics.py:1229-1238 | on a line the label is rising, or falling, exactly when its rounded slope per minute reaches the threshold |
| Histories.NeverDecreasingNeverFalling | admin/omr_metrics.py:1229-1238 | a history that never decreases is never labelled falling |
| Histories.GapInstance | admin/omr_metrics.py:1022-1031 | a missing value hides nothing of what follows it |
| ReverseTags.PublicTagInjective | admin/omradmin.py:1493-1497 | a public tag determines its user and port, for every user name |
| ReverseTags.PrefixMatchIff | admin/omradmin.py:1578-1578 | the test for remaining forwards accepts another user's tag exactly when that name continues the user's with `-tcp` |
| ReverseForwards.Editor.SetForward | admin/omradmin.py:1528-1569 | the in-place edit computes the specified configuration, and a rejected set changes nothing |
| ReverseForwards.Editor.RemoveForward | admin/omradmin.py:1571-1585 | the in-place edit computes the specified configuration and reports whether the tag was present |
| ReverseForwardRuns.SetRejectedIff | admin/omradmin.py:1533-1535 | a set is rejected if and only if another user owns the port or a foreign inbound listens on it |
| ReverseForwardRuns.SetRepresents | admin/omradmin.py:1528-1569 | an accepted set keeps inbounds, listener, clients and rules in step with the registry of forwards |
| ReverseForwardRuns.RemoveRepresents | admin/omradmin.py:1571-1585 | a remove unregisters exactly the user's own forward and keeps all structures in step |
| ReverseForwardLaws.RunRepresents | admin/omradmin.py:1528-1585 | over every run each public port has one owner, one routing rule to the owner's reverse tag, and one client of the owner at the one listener |
| ReverseForwardLaws.FreshRepresents | admin/omradmin.py:1528-1585 | a configuration without the tags and the listener port starts such a run with no forwards |
| ReverseForwardLaws.EditsKeepForeign | admin/omradmin.py:1528-1585 | inbounds and rules of others pass through both edits unchanged and in order |
| ReverseForwardLaws.SetIdempotent | admin/omradmin.py:1528-1569 | repeating an accepted set changes nothing, in any configuration |
| ReverseForwardLaws.SetThenRemoveIff | admin/omradmin.py:1528-1585 | for a user without forwards, set then remove restores the configuration exactly if and only if no owner's name shadows the user's |
| ReverseForwardLaws.RoundTripInstance | admin/omradmin.py:1528-1585 | while user "a-tcp" owns a forward, set then remove by user "a" does not restore the configuration |
| ReverseForwardLaws.RemoveNoStaleIff | admin/omradmin.py:1577-1584 | a remove leaves no client without forwards if and only if the user still owns one or no remaining owner's name shadows the user's |
| ReverseForwardLaws.RunNoStale | admin/omradmin.py:1571-1585 | over runs by users whose names do not shadow one another, no client outlives its forwards |
| ReverseForwardLaws.ShadowingLeavesStale | admin/omradmin.py:1571-1585 | for any two names of which one shadows the other, and any two free ports, three requests leave a client without forwards |
| ReverseForwardLaws.NoStaleIff | admin/omradmin.py:1571-1585 | runs by a set of users never leave such a client if and only if no name of the set shadows another |
| ReverseForwardLaws.StaleInstance | admin/omradmin.py:1571-1585 | users "a" and "a-tcp" reach it from an empty configuration |
| ReverseForwardLaws.BypassIsOwnedPorts | admin/omradmin.py:1587-1596 | the bypass list is exactly the owned ports in strictly ascending order |
| ReverseForwardTargets.ForwardTarget | admin/omradmin.py:1560-1566 | in a configuration that represents a registry, the one inbound on a registered port, the only one with its tag, leads to the registered address and port |
| ReverseForwardTargets.ForwardRoute | admin/omradmin.py:1567-1569 | the one rule for that inbound, and for no other, sends it to the outbound named after the owner |
| ReverseForwardTargets.ForwardClient | admin/omradmin.py:1536-1559 | the one listener, alone on port 65444, has exactly one client of each owner, tied to that outbound |
| ReverseForwardTargets.SetClient | admin/omradmin.py:1536-1559 | an accepted set gives the listener one client of the user with the given id, and keeps the others in order |
| ReverseForwardTargets.ReverseTagInjective | admin/omradmin.py:1496-1497 | no two users share an outbound |
| ReverseForwardTargets.BypassIff | admin/omradmin.py:1587-1596 | in any configuration the bypass list has exactly the ports of the public tunnel inbounds |
| ReverseForwardTargets.TargetInstance | admin/omradmin.py:1528-1569 | a forward of port 8080 to port 80 of a host in the LAN leads there |
| ReverseForwardFile.Host.Write | admin/omradmin.py:1607-1636 | the file ends as the validated candidate on success and as the original on error, provided a needed restore is written; a restart call that raises is the one failure that leaves the validated candidate |
| ReverseForwardFile.Host.AddPort | admin/omradmin.py:1638-1658 | the file represents the registry after every call whose restore is written; the forward is stored on success and when the restart call raises, and otherwise nothing changes; of the calls without such faults exactly a success brings a stale bypass chain up to date, and a raising restart leaves it right if and only if the port already had a forward; nothing is written exactly when the file is already what the accepted request would write |
| ReverseForwardFile.Host.DelPort | admin/omradmin.py:1660-1672 | likewise for removal, where a raising restart always leaves the bypass chain wrong; nothing is written when the user does not own the port |
| ReverseForwardFile.Host.RepeatAdd | admin/omradmin.py:1607-1658 | repeating a request that is stored, as after a raising restart, any number of times changes neither file nor bypass chain |
| ReverseForwardFile.Host.RepeatDel | admin/omradmin.py:1660-1672 | nor does repeating a removal |
| Firewall.RenderEntry | admin/omradmin.py:1844-1875 | one entry adds its rule, if it has one with a known target, and fails exactly when its IPv6 target cannot be formatted |
| Firewall.RenderUser | admin/omradmin.py:1842-1875 | the inner loop appends the user's rules, and stops exactly at an entry whose IPv6 target cannot be formatted |
| Firewall.RenderFwPorts | admin/omradmin.py:1837-1876 | the rules of all users in order, and failure exactly when some entry cannot be formatted |
| Firewall.RenderingIsFaithful | admin/omradmin.py:1837-1900 | a configuration compiles if and only if every address it redirects to can be formatted, and then first-match evaluation of the chains gives the verdict read from the configuration: accepted by a matching ACCEPT entry, redirected by the bulk switch or else by the first matching DNAT entry with a known target |
| FirewallRuns.OpenUpdates | admin/omradmin.py:1907-1933 | an open is a last-write-wins update of the keyed list; keys stay unique and the others keep their order |
| FirewallRuns.OpenIdempotent | admin/omradmin.py:1921-1933 | opening again what was just opened changes nothing |
| FirewallRuns.CloseRemoves | admin/omradmin.py:1935-1945 | a close removes exactly its key |
| FirewallRuns.NoResyncNoChange | admin/omradmin.py:1907-1945 | an operation that skips the resynchronisation has changed nothing |
| FirewallRuns.Engine.Perform | admin/omradmin.py:1894-1945 | configuration and live chains after one operation, for every outcome of the two nft transactions; with both succeeding the chains stay those of the stored configuration |
| FirewallRuns.RunInvariant | admin/omradmin.py:1894-1945 | over every run of opens, closes, bulk switches and address changes, for users with any ids, keys stay unique, the live chains are the compiled stored configuration whenever it compiles, and each list is a last-write-wins table |
| FirewallRuns.RunVerdicts | admin/omradmin.py:1837-1945 | so after every run to a configuration that compiles each packet gets the verdict read from it |
| FirewallRuns.RunShowsLastCompiled | admin/omradmin.py:1894-1945 | after every run the live chains are those of the last stored configuration that compiled |
| FirewallRuns.RaisesIff | admin/omradmin.py:1861-1898 | a request leads from a configuration that compiles to one that does not if and only if it asks for an address formatted from a textual id: an IPv6 redirection of that user, or the IPv6 bulk switch |
| FirewallRuns.RunCompilesIff | admin/omradmin.py:1861-1898 | a run always keeps a configuration that compiles if and only if none of its requests does that |
| FirewallRuns.FrozenRun | admin/omradmin.py:1861-1945 | while such an entry stays, every request by anybody leaves the live chains as they were |
| FirewallRuns.FrozenInstance | admin/omradmin.py:6236-6236 | after an added user redirects an IPv6 port, the bulk switch is stored but no IPv6 packet is redirected |
| FirewallRuns.RepairIff | admin/omradmin.py:1894-1945 | an operation puts chains left over from a failed nft run right if and only if it resynchronises, as a bulk switch always does |
| FirewallRuns.RepeatedOpenRepairsNothing | admin/omradmin.py:1921-1926 | repeating an open changes neither list nor chains, whatever became of the first resynchronisation |
| FirewallRuns.RemovalCompilesIff | admin/omradmin.py:6364-6437 | what a removal leaves compiles if and only if neither another user nor a bulk switch needs a textual id formatted |
| FirewallRuns.RemoveUserStaleIff | admin/omradmin.py:6364-6437 | removing a user, which does not resynchronise, leaves chains that were right so if and only if the user had no entry that renders a rule, and the bulk switches, which only the primary user can change, render as before |
| FirewallRuns.RemoveAfterRunIff | admin/omradmin.py:6364-6437 | after any run, frozen or not, a removal that leaves a configuration that compiles has the chains right if and only if the last configuration of the run that compiled renders the same |
| FirewallRuns.StalePortInstance | admin/omradmin.py:6364-6437 | the opened port of a removed user stays open |
| FirewallRuns.ThawedStaleInstance | admin/omradmin.py:6364-6437 | removing the user who had frozen the chains leaves a port opened meanwhile by another user missing, although the removed user rendered no rule |
| FirewallStored.RunStores | admin/omradmin.py:4042-4051 | over every run each user's tunnel address is the last non-empty one that user posted, each bulk switch is in the last position of its family, and names and ids never change |
| FirewallStored.UserChanged | admin/omradmin.py:6124-6127 | storing ports or an address changes that field of the first user of the name, and nothing else |
| FirewallStored.KeyOfIff | admin/omradmin.py:1902-1905 | two entries have the same key if and only if seven fields agree |
| FirewallStored.EditsLeaveSupported | admin/omradmin.py:1907-1945 | a request for anything but ACCEPT and DNAT is ignored, an open leaves only such entries, and a close keeps exactly those with another key |
| FirewallStored.RedirectionTarget | admin/omradmin.py:1867-1872 | a redirection goes to its own VPN address, or to the tunnel address of its family |
| FirewallStored.TunnelAddress | admin/omradmin.py:1872-1872 | the IPv6 tunnel address spells the id in hexadecimal, a missing id as 0 |
| FirewallStored.HexReadsBack | admin/omradmin.py:1872-1872 | the hexadecimal digits read back as the id, without leading zeros |
| FirewallStored.PrimaryIs | admin/omradmin.py:1882-1882 | the bulk switches redirect to the user with the service's own name |
| FirewallStored.PostedInstance | admin/omradmin.py:6124-6172 | posting a new address moves the user's redirection there |
| PathPolicy.CodepointInjective | admin/omradmin.py:5678-5686 | different DSCP classes have different codepoints |
| PathPolicy.CodepointOfName | admin/omradmin.py:5678-5686 | the codepoint follows from the digits of the class name: 8n for csn, 8x + 2y for afxy, 46 for ef, 1 for le |
| PathPolicy.MaskOfClasses | admin/omradmin.py:5725-5734 | a mask's bits are exactly the codepoints of the requested classes (6-bit field of section 3 of RFC 2474) |
| PathPolicy.Policy.SetField | admin/omradmin.py:5694-5700 | the first entry of the key is updated in place, or one is appended |
| PathPolicy.Policy.ClearField | admin/omradmin.py:5702-5710 | the field leaves the first entry of the key, and an entry without fields leaves the list |
| PathPolicy.ClearEffect | admin/omradmin.py:5702-5710 | clearing leaves the field of a path behind if and only if a later entry of the path carries it, and touches nothing else |
| PathPolicy.ValuesIff | admin/omradmin.py:5689-5692 | a path has a value if and only if some entry of it carries the field, and the first such entry gives it |
| PathPolicy.ExtraIff | admin/omradmin.py:5702-5710 | the condition of the clear, entry by entry: two entries of the path, the later one with the field |
| PathPolicy.HiddenStays | admin/omradmin.py:5702-5710 | behind a first entry that only has the other field it stays behind however often it is cleared |
| PathPolicy.DuplicateInstance | admin/omradmin.py:5702-5710 | of two weights for one path the second outlives every sync that drops the path |
| PathPolicy.Policy.Sync | admin/omradmin.py:5735-5754 | from any stored list: one field of one user becomes the request, up to exactly the dropped paths that a later duplicate still carries, so there are none where keys are unique; the other field and other users keep their values; with unique keys, which stay so, the file is rewritten exactly when a value changes |
| PathPolicy.Policy.SetDscp | admin/omradmin.py:5720-5754 | the DSCP endpoint: accepted exactly for valid pins, then the user's masks are the request if and only if no duplicate of a dropped path carries one, and weights are untouched |
| PathPolicy.Policy.SetWeights | admin/omradmin.py:5767-5800 | the weight endpoint, likewise for weights |
| PathPolicy.LastWeightWins | admin/omradmin.py:5773-5778 | the last pin of an interface gives its weight |
| PathPolicy.LastMaskWins | admin/omradmin.py:5726-5734 | the last pin of an interface gives its mask, whose bits are that pin's classes |
| PathPolicy.UnnamedPathsAreCleared | admin/omradmin.py:5735-5754 | a path of the user has a weight, or a mask, exactly when some pin names it |
| PathPolicy.ReplaceExactly | admin/omradmin.py:5735-5754 | key by key, what a sync sets and what it keeps |
| PathPolicy.ReplaceIdempotent | admin/omradmin.py:5735-5754 | repeating a sync changes nothing |
| PathPolicy.ReplaceCommutes | admin/omradmin.py:5735-5754 | syncs of different users commute as maps |
| PathPolicy.LastRequestWins | admin/omradmin.py:5720-5800 | after any run of both syncs by any users, each user's interfaces carry exactly the last request for each field |
| RemoteIds.CollectIds | admin/omradmin.py:4849-4853 | the pins are accepted exactly when all are valid, and a later pin of a class wins |
| RemoteIds.LastIdWins | admin/omradmin.py:4849-4853 | the requested classes are those some pin names, each with the id of its last pin |
| RemoteIds.DscpMap.Sync | admin/omradmin.py:4849-4863 | a pass over the classes whose push took effect, all of them without faults, or no change when a pin is invalid |
| RemoteIds.DesiredIdsKnown | admin/omradmin.py:4849-4853 | an accepted request stays within the known classes |
| RemoteIds.PassConverges | admin/omradmin.py:4854-4863 | a pass reaches the request from any live map over the known classes |
| RemoteIds.FaultyPassIsRepaired | admin/omradmin.py:4854-4863 | a pass that was cut short or of which pushes failed is repaired by the next pass |
| RemoteIds.CollectWeights | admin/omradmin.py:4891-4895 | the weights are accepted exactly when all are valid, and a later one of an id wins |
| RemoteIds.LastWeightWins | admin/omradmin.py:4891-4895 | the requested ids are those some pin names, each with the weight of its last pin |
| RemoteIds.WeightMap.Sync | admin/omradmin.py:4891-4906 | live map and recorded ids after a sync: under any failed pushes, cut between any two of them or while the record is written, and without faults |
| RemoteIds.SyncReachesIff | admin/omradmin.py:4896-4905 | a complete sync reaches the request if and only if every live id is recorded or requested |
| RemoteIds.RunReachesIff | admin/omradmin.py:4891-4906 | a run of complete syncs ends with the live map of its last request if and only if every id live at first was recorded or is named by some request |
| RemoteIds.RunReachesLastRequest | admin/omradmin.py:4891-4906 | once live ids are recorded, every run of complete syncs ends with live map and record of the last request |
| RemoteIds.OrphanSurvivesIff | admin/omradmin.py:4896-4905 | a live id without record survives a run, with its weight, if and only if no request of the run names it |
| RemoteIds.FaultyRunIff | admin/omradmin.py:4896-4905 | after a sync with any of these faults a run reaches its last request if and only if each id left live is recorded or named by some request of the run: the ids set before a cut, the ids of a cut-off record, or the ids whose delete failed |
| RemoteIds.OrphanedWeight | admin/omradmin.py:4896-4905 | an id left by an interruption, by a cut-off record or by a failed delete survives any number of empty requests |
| Vxlan.Registry.SetOwn | admin/omradmin.py:5117-5140 | the self-service endpoint: denied exactly for a read-only user or a VNI from a non-admin, in conflict exactly when enabling a pair another user with an id is assigned; otherwise only the caller's settings change, given values replacing and the others staying in force; collision freedom is kept |
| Vxlan.Registry.AssignOther | admin/omradmin.py:5166-5199 | the admin endpoint: refusals change nothing; a success updates only the named user and just the given values, in conflict exactly when the pair is taken and something is assigned or enabled, or a VNI taken on another port is asked for without force; a taken pair is never handed out, except to switch its holder off; collision freedom is kept |
| Vxlan.StepKeepsFree | admin/omradmin.py:5059-5199 | no request, user addition or removal creates a collision of enabled users |
| Vxlan.RunKeepsFree | admin/omradmin.py:5059-5199 | over every run no two enabled users with an id hold the same VNI and UDP port |
| Vxlan.EnableAcceptedIff | admin/omradmin.py:5132-5135 | enabling, by anybody who may use the endpoint, succeeds if and only if no other user with an id is assigned the pair, enabled or not |
| Vxlan.DisabledMayCollide | admin/omradmin.py:598-618 | a fresh user's default pair may already be taken while that user is disabled |
| Vxlan.EffectiveDefaults | admin/omradmin.py:598-618 | each missing setting has its default: off, mode l3, the VNI after the id, port 4789; an unknown mode reads l3 |
| Vxlan.AddThenRemoveIff | admin/omradmin.py:6217-6391 | adding and removing a user restores the others' settings if and only if the id is not the protected 0 |
| LanRoutes.Server.Lan | admin/omradmin.py:6034-6083 | refused exactly when MQVPN is installed and its check fails; otherwise the LANs are stored, and the file is rebuilt exactly when client-to-client is on and every stored LAN, the user's former ones included, parses |
| LanRoutes.Server.ClientToClient | admin/omradmin.py:1981-2012 | switching client-to-client drops every line with the directive and appends it when switched on; no LAN is rebuilt |
| LanRoutes.RebuildsIff | admin/omradmin.py:6049-6072 | a store reaches the file if and only if client-to-client is on and the new LANs, the user's former ones and everybody else's parse |
| LanRoutes.UnionIff | admin/omradmin.py:6061-6069 | a route is desired if and only if a LAN of some user parses to it |
| LanRoutes.SwitchRoundTripIff | admin/omradmin.py:2003-2008 | switching on appends the directive, and switching on and off restores a file if and only if it had none |
| LanRoutes.PushLineNames | admin/omradmin.py:6077-6081 | a push line contains the search text of its own route only |
| LanRoutes.PushText | admin/omradmin.py:6080-6081 | the text of a push line |
| LanRoutes.RebuildPushes | admin/omradmin.py:6058-6082 | a rebuild leaves exactly one line for each desired route, none for the caller's dropped ones, and keeps pushing routes nobody asked to manage |
| LanRoutes.RebuildKeepsForeign | admin/omradmin.py:6075-6079 | lines that name no managed route keep their order |
| LanRoutes.TogglePushes | admin/omradmin.py:2003-2008 | switching client-to-client leaves the pushed routes alone |
| LanRoutes.RebuildIdempotent | admin/omradmin.py:6075-6082 | rebuilding again with nothing new leaves the file as it is |
| LanRoutes.RebuildReadsBackIff | admin/omradmin.py:6075-6082 | the rebuilt file reads back as the lines written if and only if it ended in a line feed, its last line was dropped, or nothing is pushed |
| LanRoutes.UnterminatedLineIsLost | admin/omradmin.py:6075-6082 | a last line without its ending is glued to the pushed route and dropped with it by the next rebuild |
| LanRoutes.RunPushes | admin/omradmin.py:6034-6083 | over every run of stored LANs and switches of client-to-client, LANs that do not parse included, exactly the routes tracked from call to call are pushed, each by one line |
| LanRoutes.RunDirects | admin/omradmin.py:1981-2012 | once client-to-client was switched, its directive is in the file, on one line, exactly while it is on, whatever LANs are stored |
| LanRoutes.RunKeepsForeign | admin/omradmin.py:6075-6079 | over every run lines that are no directive and name no route of the run keep their order |
| LanRoutes.RunAgreesIff | admin/omradmin.py:6034-6083 | after a run the pushed routes are the stored ones if and only if the tracked routes are |
| LanRoutes.RunAgrees | admin/omradmin.py:6034-6083 | over every run with client-to-client on throughout whose accepted LANs parse the pushed routes are the union of all stored LANs, each exactly once |
| LanRoutes.StrictRunAgrees | admin/omradmin.py:6039-6044 | where MQVPN is installed and its check is the stricter one, so they are over every run that does not switch it off |
| LanRoutes.UnbuiltCallAgreesIff | admin/omradmin.py:6049-6072 | a call that stores without reaching the file, raising or with client-to-client off, keeps agreement if and only if the stored routes have not changed |
| LanRoutes.OffAgreesIff | admin/omradmin.py:6049-6072 | what is stored while client-to-client is off leaves agreement, once it is on again, if and only if the stored routes are the same |
| LanRoutes.OrphanStaysPushed | admin/omradmin.py:6058-6082 | a pushed route that nobody stores stays pushed over every run in which nobody stores it |
| LanRoutes.BadLanBlocks | admin/omradmin.py:6061-6072 | while a stored LAN of one user does not parse, no store reaches the file, neither one of anybody else nor the user's own next one |
| LanRoutes.BadLanInstance | admin/omradmin.py:6049-6072 | a LAN that does not parse leaves its former route pushed |
| LanRoutes.BadLanOutlived | admin/omradmin.py:6049-6082 | that route is pushed by one line and stored by nobody after every run in which nobody stores it again |
| LanRoutes.OffInstance | admin/omradmin.py:6472-6479 | the route of a LAN dropped while client-to-client is off is still pushed, by one line, when it is on again |
| ControlAddress.ReachableIdempotent | admin/omradmin.py:5455-5458 | normalising a wildcard host is idempotent and changes wildcards only |
| ControlAddress.BracketedRoundTripIff | admin/omradmin.py:5439-5459 | a bracketed address reads back if and only if its host is not empty, not a wildcard and free of closing brackets |
| ControlAddress.PrintRoundTripIff | admin/omradmin.py:5608-5609 | the printed address reads back if and only if its host is not empty, not a wildcard, and free of what its form cannot carry |
| ControlAddress.MisreadInstances | admin/omradmin.py:5439-5459 | the hosts "[vps" and "::" are read back as something else |
| ControlAddress.ParseForms | admin/omradmin.py:5441-5459 | both forms give the default for a port outside 1 to 65535, and otherwise the host, wildcards as loopback, and the port |
| ControlAddress.ParseDefault | admin/omradmin.py:5433-5454 | a missing value, whitespace, and a value without a colon give the default |
| ControlAddress.SpaceCodes | admin/omradmin.py:5439-5441 | whitespace at the ends is what Python strips, by code point |
| Smoothing.Smoother.Apply | admin/omr_metrics.py:162-192 | the blended and renormalised shares are returned and stored for the user; an empty input changes nothing |
| Smoothing.SmoothInvariant | admin/omr_metrics.py:172-192 | the result has the input's keys in order, is zero exactly where the input is, and sums to 1 as soon as one input is positive |
| Smoothing.RunInvariant | admin/omr_metrics.py:162-192 | over every run of non-negative vectors the stored shares follow the last vector |
| Smoothing.SmoothScalesBlends | admin/omr_metrics.py:175-190 | the stored shares are the blended values scaled by their sum: 0 for a zero share, the share itself without history, else alpha parts of it and the rest of the former one |
| Smoothing.FirstCallKeeps | admin/omr_metrics.py:183-190 | the first call stores a distribution as it is |
| Smoothing.ExactContraction | admin/omr_metrics.py:172-192 | with shares stored for the same interfaces, a call with a distribution multiplies each distance to it by exactly 1 - alpha |
| Smoothing.GeometricConvergence | admin/omr_metrics.py:162-192 | repeating a distribution contracts geometrically from the second call on, whatever was stored before |
| Smoothing.WeightsOfDistribution | admin/omr_metrics.py:2939-2939 | integer weights lie in 1..255, keep the order of the shares, and total between 255 - n/2 and 255 + n |
| Smoothing.WeightNearest | admin/omr_metrics.py:2939-2939 | a weight is the integer nearest to 255 p, a tie going to the even one, and never less than 1 |
| Scoring.ComputeWeightsHeuristic | admin/omr_metrics.py:1919-1982 | the loop computes the costed shares of the interfaces' scores |
| Scoring.SharesMonotone | admin/omr_metrics.py:1909-1916 | lowering one score never raises that share nor lowers another |
| Scoring.HeuristicIsDistribution | admin/omr_metrics.py:1919-1982 | the shares are non-negative and sum to 1 |
| Scoring.CostMonotone | admin/omr_metrics.py:1903-1916 | raising one interface's positive cost never raises its share nor lowers another's |
| Scoring.CostScaleIff | admin/omr_metrics.py:1903-1916 | scaling all positive costs leaves the shares unchanged if and only if the factor is 1 or no scoring interface without a cost competes with one that has a cost |
| Scoring.CostScaleInstance | admin/omr_metrics.py:1903-1916 | doubling the one given cost moves two equal shares to a third and two thirds |
| Scoring.LatencyMonotone | admin/omr_metrics.py:1919-1982 | raising one online interface's latency never raises its share nor lowers another's |
| Scoring.OfflineGetsNothing | admin/omr_metrics.py:1919-1982 | an offline interface gets 0 as soon as some score is positive |
| Scoring.PublishedWeights | admin/omr_metrics.py:2938-2939 | the published weights of the whole pipeline lie in 1..255 with the stated total, and an offline interface gets exactly 1 whatever was smoothed before |
| Heuristics.WorseGetsLess | admin/omr_metrics.py:1919-1982 | raising latency, loss, jitter, ECN marks, congestion or its forecast, or lowering the signal, never raises the share nor lowers another's |
| Heuristics.ScoreRange | admin/omr_metrics.py:1950-1969 | scores lie between 0 and 1 |
| Heuristics.ScoreEnds | admin/omr_metrics.py:1950-1969 | ideal metrics score 1, the worst 0 |
| Heuristics.LatencyScale | admin/omr_metrics.py:1950-1969 | the difference two latencies make: half of the score over the range, 0.35 where congestion is known |
| Heuristics.LossScale | admin/omr_metrics.py:1951-1969 | likewise for loss: 0.22, or 0.15 |
| Heuristics.JitterScale | admin/omr_metrics.py:1952-1969 | likewise for jitter: 0.15, or 0.10 |
| Heuristics.SignalScale | admin/omr_metrics.py:1953-1969 | likewise for signal, upwards: 0.07, or 0.05 |
| Heuristics.EcnScale | admin/omr_metrics.py:1954-1969 | likewise for ECN marks: 0.06, or 0.05 |
| Heuristics.CongestionScale | admin/omr_metrics.py:1956-1966 | likewise for congestion: 0.30 |
| Heuristics.ForecastCounts | admin/omr_metrics.py:1956-1964 | the forecast counts where it is worse than the present congestion, and not at all where none is known |
| Heuristics.Saturation | admin/omr_metrics.py:1950-1964 | past its ceiling a metric counts as at the ceiling |
| Heuristics.MissingCountsAs | admin/omr_metrics.py:1951-1954 | a missing loss, jitter or signal counts as the middle of its range, missing ECN marks as none |
| Heuristics.OnlineIff | admin/omr_metrics.py:1937-1941 | an interface scores if and only if its latency is known and its status missing, empty or "online" |
| Heuristics.SharesInProportion | admin/omr_metrics.py:1903-1916 | shares are to each other as score over cost, a missing cost counting as 1 |
| Heuristics.LossInstance | admin/omr_metrics.py:1950-1969 | losing everything takes a score from 0.87 to 0.65 |
| Watchdog.Monitor.ObserveAll | admin/omr_metrics.py:2256-2275 | over any sequence of rounds, from any streak below the limit, the model is reset once for every three losses of each maximal bad run, the running streak counting towards the first |
| Watchdog.ResetsCountThirds | admin/omr_metrics.py:2122-2126 | the streak stays below the limit, and the resets are the sum over maximal bad runs of a third of their length, rounded down |

## Left out

- Authentication, read-only users, the lock file, `modprobe`, service restarts and the scheduler and path-manager name correction before `/mptcp`: plumbing around the transaction.
- Names given to `/mptcp` are taken after that correction, and kernel values are compared modulo surrounding whitespace, as the service does.
- MptcpTransaction.Host.Configure: kernel locations are independent of each other, and no other process writes them during the transaction.
- MptcpTransaction.Host.WriteKernel: the kernel keeps the set of existing locations; a write may leave any value but creates or removes none.
- MptcpTransaction.Host.AtomicWrite: replacing a file is one step, as the file system promises; concurrent writers of the same file are not modelled.
- MptcpFile.SettingsReadBackIff: a setting line is read as key, equals sign, value; how the operating system itself parses sysctl files is not part of this model.
- The neural model, its optimiser and `_torch_predict_at`: foreign numerics; only the linear forecast path is modelled.
- `exp`, `log` and floating-point rounding: regression weights are arbitrary positive reals and all arithmetic is over reals.
- Histories.TrendFollowsRates: thresholds are positive, as all of the service's are; the value clamps, confidence and level fields of a forecast are not modelled.
- Exploration noise on the published weights: a random perturbation after the smoothing.
- Heuristics.ScoreRange: measured metrics are non-negative and a signal quality is a percentage.
- Scoring.HeuristicIsDistribution: predicted congestion is an input of each interface and metrics are non-negative; the explanation output is not modelled.
- Watchdog.Monitor.ObserveAll: rebuilding and saving the model on a reset is not modelled.
- ReverseForwards.Editor.SetForward: an absent JSON key and an empty list are the same, and inbound fields the edits never read are one opaque part.
- ReverseForwardFile.Host.Write: serialisation is a parameter that reads back what it wrote; the self-test of XRay is a predicate on the candidate; leftover temporary files are not modelled.
- ReverseForwardFile.Host.AddPort: the firewall entry opened beside a forward belongs to the firewall model and is not chained here; address and port text checks are reduced to the port ranges.
- Firewall.RenderingIsFaithful: the text of nft rules and comments is not modelled; how nft reads port and address specifications is a parameter.
- Firewall.RenderFwPorts: defaults for absent fields of an entry other than its type are taken as already filled in.
- FirewallRuns.RunInvariant: `/vpnips` is modelled by its effect on the tunnel address; its 6in4 and VXLAN side effects are not.
- FirewallRuns.Engine.Perform: the base table is present, and each chain transaction either replaces its chain or leaves it.
- FirewallRuns.RemoveUserStaleIff: the refusals of `/remove_user` (an unknown user, the protected id 0) and its clean-up of the VPN servers are not modelled.
- PathPolicy.Policy.Sync: which of several entries of a path MQVPN itself obeys, and the value a left-over path has, are not modelled; nor are the live pushes to MQVPN, their warnings, and the order in which several new entries are appended.
- RemoteIds.DscpMap.Sync: a push either takes effect or has none.
- RemoteIds.WeightMap.Sync: the text of the state file is not modelled, only the set of ids it holds; one cut off while it is written may hold any.
- Vxlan.RunKeepsFree: address fields and MTU are one opaque part, ids chosen for new users are inputs, and the default address pools are not modelled.
- LanRoutes.RunAgrees: the file is the text as Python reads it, with line feeds as line endings, and it ends in one.
- LanRoutes.Server.ClientToClient: the nft chain of the switch and the restart of OpenVPN are not modelled.
- LanRoutes.Server.Lan: parsing of LANs, MQVPN's check and sorting of routes are parameters; the per-client `iroute` files and the MQVPN routes are not modelled.
- ControlAddress.PrintRoundTripIff: reading the JSON file is an optional string.
- nft, Prometheus and Shorewall text layouts, diagnostics, installers, `/config`, `/status` and the per-VPN user helpers: assembly of settings with shallow logic.
