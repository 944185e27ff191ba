# RogueBlocker ban core in Dafny

RogueBlocker is a Windows daemon. It watches the Security log for failed logons (event 4625). When a logon fails under a user name that is not on an allow list, it bans the source address by adding an inbound block rule through `netsh advfirewall`. This project models the three pieces of it that hold the logic, and proves properties of them:

- **`FirewallManager`** (module `Firewall`, class `Firewall.FirewallManager`). This is the in-memory set of banned addresses, `bannedIps`.
  - `BanIp` (`BanIpAsync`) runs the gate:
    - it refuses a blank address, the `-` placeholder and whitelisted addresses;
    - it does nothing for an address already in the set;
    - otherwise it issues one add-rule command and commits the address only when that command succeeds.
  - `UnbanIp` (`UnbanIpAsync`) always issues the delete command. It drops the address only on success.
  - The deterministic rule name is `RuleName`.
  - `LoadExistingBannedIps` (`LoadExistingBannedIpsAsync`) rebuilds the set at startup. It scans the rule listing line by line, in the source's own loop. It pairs each "Rule Name:"/"规则名称:" line with the "RemoteIP:"/"远程 IP:" lines that follow it.
- **The listing parser** (module `RuleListing`):
  - `KindOf` classifies one line, in the same if/else-if order as the loop.
  - `Scan` is the loop's left fold.
  - `Announces` is an independent, declarative reading of which addresses a listing announces. `ScanFound` proves the fold and that reading agree.
  - `ReconcileListing` proves that a listing printed from any set of rules gives back exactly the addresses of the managed ones. The listing may use either label set, any padding between label and value, "\r\n" or "\n" line breaks, and any unlabelled lines before the first rule and inside each block.
- **`netsh`** (module `NetshOracle`) is an oracle object. It returns an arbitrary reply and records every invocation, so the firewall manager's contracts can say exactly which commands were issued and what was done with the replies.
- **`SecurityEventWatcher`** (module `Watcher`):
  - `GetEventProperties` is the fixed-position extraction.
  - `AllowedUsernamesLower` is the lower-cased allow set built by the constructor.
  - `IsUsernameAllowed` is the allow-list lookup.
  - `Classify`/`Decide` is the decision that `OnEventRecordWritten` takes.
  - The class `Watcher.SecurityEventWatcher` holds the allow set and forwards a decided ban to the firewall manager.
- **`RogueBlockerOptions`** (module `Configuration`) is a datatype whose default constructor carries the source's default values.

`TextOps` states the .NET string operations the code relies on: `char.IsWhiteSpace`, `Trim`, `StartsWith`, `Split(c)`, `Split(c, 2).LastOrDefault()`, `Replace` and case-insensitive comparison. Module `Scenarios` drives the classes through three call sequences: a repeated ban, a ban followed by two unbans, and one failed logon by "Administrator" from 203.0.113.7 under prefix "RB_".

In four places the code behaves differently from what one might expect of a ban store, and the model follows the code:

- **Return value.** `BanIpAsync` and `UnbanIpAsync` return a single `bool`, not an outcome enumeration. "Already banned", "whitelisted", "bad address" and "netsh failed" all read as `false`.
- **Unban.** `UnbanIpAsync` does not check membership first. It issues the delete command for any address.
- **Whitelist.** An address is whitelisted when it equals an entry up to letter case (`OrdinalIgnoreCase`), not only when it matches exactly.
- **Reload.** The startup reload does not consult the whitelist. A managed rule bound to a whitelisted address puts that address into the banned set (`Firewall.ReloadIgnoresWhitelist`, with the loopback instance `Firewall.ReloadAdmitsWhitelisted`). So "a whitelisted address is never banned" holds for what `BanIp` adds, not for the set as a whole.

## Model

| member | source | states |
|---|---|---|
| Configuration.Defaults | RogueBlocker/Configuration/RogueBlockerOptions.cs:5-25 | section name "RogueBlocker"; default allow list empty, rule prefix the non-empty "RogueBlocker_Ban_", ban logging on, whitelist exactly "127.0.0.1" and "::1" |
| Firewall.RuleName | RogueBlocker/Services/FirewallManager.cs:48 | the rule name starts with the prefix, is as long as prefix plus address, maps each address character to itself except ':' and '.' which become '_', and has no ':' or '.' after the prefix |
| Firewall.RuleNameIsLossy | RogueBlocker/Services/FirewallManager.cs:69 | distinct addresses ("10.0.0.1", "10:0:0:1", "10_0_0_1") share one rule name, so the name cannot be read back as an address |
| Firewall.AddRuleArguments | RogueBlocker/Services/FirewallManager.cs:50-52 | the add command: an inbound block rule under the given name for `remoteip=` the address; `BanIp`'s contract states that exactly this command is issued |
| Firewall.DeleteRuleArguments | RogueBlocker/Services/FirewallManager.cs:71-73 | the delete command for the rules of the given name; `UnbanIp`'s contract states that exactly this command is issued |
| Firewall.IsIpWhitelisted | RogueBlocker/Services/FirewallManager.cs:32-33 | some whitelist entry equals the address up to letter case, as `TextOps.ContainsIgnoreCase` states; `LoopbackRefusedByDefault` applies it to the defaults |
| Firewall.IsRefused | RogueBlocker/Services/FirewallManager.cs:37-40 | the first gate of a ban: blank, "-" or whitelisted; `BanIp`'s contract (`BanCompleted`) states that a refused address gets false and changes nothing |
| Firewall.LoopbackRefusedByDefault | RogueBlocker/Services/FirewallManager.cs:32-40 | under the default options both loopback literals, in any letter case, are refused by the ban gate |
| Firewall.ReloadIgnoresWhitelist | RogueBlocker/Services/FirewallManager.cs:106-116 | whatever the options, every listed rule whose name carries the prefix puts its address, if neither empty nor "Any", into the reloaded set; no whitelist test applies |
| Firewall.ReloadAdmitsWhitelisted | RogueBlocker/Services/FirewallManager.cs:106-116 | an instance: under the default options the rule for 127.0.0.1, listed with "\r\n" line breaks, puts that whitelisted address into the reloaded set |
| Firewall.FirewallManager.constructor | RogueBlocker/Services/FirewallManager.cs:13-19 | the banned set starts empty |
| Firewall.FirewallManager.IsIpBanned | RogueBlocker/Services/FirewallManager.cs:30 | exact membership in the banned set; `BanIp` states it turns true exactly when a ban succeeds, `UnbanIp` that it is false after a successful unban |
| Firewall.FirewallManager.BanIp | RogueBlocker/Services/FirewallManager.cs:35-65 | blank, "-" or whitelisted (case-insensitively): false, set and firewall untouched; already banned: false, no command; otherwise exactly one add-rule command under the rule name, the result is its reply, and the address joins the set exactly on success; true exactly when the address became banned; keeps "no whitelisted address in the set" |
| Firewall.FirewallManager.UnbanIp | RogueBlocker/Services/FirewallManager.cs:67-82 | exactly one delete command under the same rule name as the ban, whatever the set holds; on success only this address leaves the set, on failure the set is unchanged; the result is the reply |
| Firewall.FirewallManager.LoadExistingBannedIps | RogueBlocker/Services/FirewallManager.cs:84-123 | one listing command (`ShowRulesArguments`, "advfirewall firewall show rule name=all dir=in"); the set becomes the old set plus exactly the addresses the listing announces (`ManagedIps`); it never removes one, and an empty listing adds none |
| NetshOracle.Netsh.constructor | RogueBlocker/Services/FirewallManager.cs:125-152 | no invocation recorded yet |
| NetshOracle.Netsh.RunNetshCommand | RogueBlocker/Services/FirewallManager.cs:125-152 | one more invocation recorded: these arguments with the reply returned |
| NetshOracle.Netsh.RunNetshCommandWithOutput | RogueBlocker/Services/FirewallManager.cs:154-184 | one more invocation recorded: these arguments with the output returned |
| RuleListing.KindOf | RogueBlocker/Services/FirewallManager.cs:100-111 | one trimmed line is a rule-name line (tested first), a remote-address line, or neither, with the trimmed text after the first ':' as value; its round trips, `RuleNameLineRoundTrip` and `RemoteIpLineRoundTrip`, cover all four labels: "Rule Name:", "规则名称:", "RemoteIP:" and "远程 IP:" |
| RuleListing.ScanLine | RogueBlocker/Services/FirewallManager.cs:102-116 | one loop iteration: a rule-name line replaces the current name, a remote-address line under a prefixed current name adds a value that is neither empty nor "Any"; `AnnouncesLast` states what one line adds |
| RuleListing.Scan | RogueBlocker/Services/FirewallManager.cs:96-117 | the loop over all lines from no current name and nothing found; `ScanFound` proves it finds exactly the announced addresses and `ScanCurrent` what its current name is |
| RuleListing.ManagedIps | RogueBlocker/Services/FirewallManager.cs:92-117 | nothing for an empty listing, otherwise the scan of its '\n'-separated lines; `ManagedIpsAreAnnounced` and `ReconcileListing` state what it contains |
| RuleListing.FieldValueOf | RogueBlocker/Services/FirewallManager.cs:100-104 | a line of a label, white-space padding, a trimmed value and a white-space line end (such as '\r') starts with its label once trimmed, and the trimmed text after its first ':' is the value |
| RuleListing.RuleNameLineRoundTrip | RogueBlocker/Services/FirewallManager.cs:102-105 | a rule-name line under either label set ("Rule Name:" or "规则名称:"), with any padding and line end, is read as its rule name |
| RuleListing.RemoteIpLineRoundTrip | RogueBlocker/Services/FirewallManager.cs:106-111 | a remote-address line under either label set ("RemoteIP:" or "远程 IP:"), with any padding and line end, is read as its address; neither rule-name label captures it |
| RuleListing.ScanStep | RogueBlocker/Services/FirewallManager.cs:98-117 | reading one more line is one more parser step |
| RuleListing.ScanCurrent | RogueBlocker/Services/FirewallManager.cs:96-105 | the current rule name is none until the first rule-name line, then the name on the latest one |
| RuleListing.AnnouncesLast | RogueBlocker/Services/FirewallManager.cs:106-116 | one more line announces at most one new address: the RemoteIP value on it, when the current rule name carries the prefix and the value is neither empty nor "Any" |
| RuleListing.ScanFound | RogueBlocker/Services/FirewallManager.cs:98-116 | an address is found exactly when some RemoteIP line holding it lies in the block of a rule named with the prefix and it is neither empty nor "Any" (`Announces`) |
| RuleListing.UnmanagedBlockAddsNothing | RogueBlocker/Services/FirewallManager.cs:102-109 | a rule-name line without the prefix replaces the current name, and the RemoteIP lines after it, up to the next rule-name line, add nothing |
| RuleListing.ManagedIpsAreAnnounced | RogueBlocker/Services/FirewallManager.cs:92-116 | the reload adds `ip` exactly when the listing is non-empty and announces `ip` |
| RuleListing.KindsOfRule | RogueBlocker/Services/FirewallManager.cs:100-111 | the block printed for one rule is read as its name, lines passed over, its address, and lines passed over |
| RuleListing.KindsOfOtherFields | RogueBlocker/Services/FirewallManager.cs:100-111 | lines that carry none of the four labels are passed over |
| RuleListing.KindsOfListing | RogueBlocker/Services/FirewallManager.cs:95-111 | the blocks printed for a rule list are read as its rule names and remote addresses, in order, with the other lines passed over |
| RuleListing.ScanOthers | RogueBlocker/Services/FirewallManager.cs:98-117 | lines without a label leave the parser's state unchanged |
| RuleListing.ScanBlock | RogueBlocker/Services/FirewallManager.cs:98-117 | the block of one rule adds its address exactly when its name carries the prefix and the address is neither empty nor "Any" |
| RuleListing.ScanListingKinds | RogueBlocker/Services/FirewallManager.cs:98-116 | scanning the blocks of a rule list, after any lines, adds exactly the bannable addresses of its prefixed rules |
| RuleListing.ManagedIpsOfJoin | RogueBlocker/Services/FirewallManager.cs:92-95 | the reload of a text made of break-free lines joined by '\n' is the scan of those lines, the empty text included |
| RuleListing.ReconcileListing | RogueBlocker/Services/FirewallManager.cs:84-117 | for any rules listed in either label set, with any padding, "\r\n" or "\n" line breaks and any unlabelled lines before the first block and inside each block, the reload recovers exactly the addresses of the rules named with the prefix (not empty, not "Any"); rules without the prefix contribute nothing |
| TextOps.TrimStartBlankHead | RogueBlocker/Services/FirewallManager.cs:100 | white space in front of a text is all that trimming its start removes |
| TextOps.TrimEndBlankTail | RogueBlocker/Services/FirewallManager.cs:100 | white space after a text, such as the '\r' of a "\r\n" line break, is all that trimming its end removes |
| TextOps.TrimSpec | RogueBlocker/Services/FirewallManager.cs:100 | the trimmed line is the stretch of the line left after removing the white space at its start and its end, and only white space (the bounds come from `TrimStartSpec` and `TrimEndSpec`); neither of its ends is white space, and it is empty exactly when the line is blank |
| TextOps.AfterFirst | RogueBlocker/Services/FirewallManager.cs:104 | the text after the first ':' (all of it when there is none), and no ':' before that point |
| TextOps.Split | RogueBlocker/Services/FirewallManager.cs:95 | at least one piece, and no piece holds the separator |
| TextOps.JoinSplit | RogueBlocker/Services/FirewallManager.cs:95 | joining the pieces with the separator gives back the text |
| TextOps.SplitJoin | RogueBlocker/Services/FirewallManager.cs:95 | splitting a join of separator-free pieces gives back the pieces |
| TextOps.ContainsIgnoreCase | RogueBlocker/Services/FirewallManager.cs:32-33 | true exactly when some entry equals the address up to letter case |
| TextOps.Lower | RogueBlocker/Services/SecurityEventWatcher.cs:113 | same length, and each character lower-cased |
| Watcher.GetEventProperties | RogueBlocker/Services/SecurityEventWatcher.cs:116-144 | a record is read exactly when it has at least 20 properties |
| Watcher.EventPropertiesOf | RogueBlocker/Services/SecurityEventWatcher.cs:131-137 | an event-4625 property vector of 20 entries |
| Watcher.GetEventPropertiesRoundTrip | RogueBlocker/Services/SecurityEventWatcher.cs:131-137 | user name, domain, workstation and source address are read back from positions 5, 6, 11 and 19 |
| Watcher.GetEventPropertiesReadsFixedPositions | RogueBlocker/Services/SecurityEventWatcher.cs:128-137 | two records of at least 20 properties that agree at positions 5, 6, 11 and 19 give the same fields |
| Watcher.AllowedUsernamesLower | RogueBlocker/Services/SecurityEventWatcher.cs:27-29 | the allow set holds the lower-cased form of every configured name and nothing else |
| Watcher.IsUsernameAllowed | RogueBlocker/Services/SecurityEventWatcher.cs:108-114 | a null or blank name is never allowed, any other is allowed when its lower-cased form is in the allow set; `UsernameMatchIgnoresCase` states what that means for the configured names |
| Watcher.UsernameMatchIgnoresCase | RogueBlocker/Services/SecurityEventWatcher.cs:108-114 | a user name is allowed exactly when it is present, not blank, and equals a configured name up to letter case |
| Watcher.HasSourceIp | RogueBlocker/Services/SecurityEventWatcher.cs:82 | the source address is present, not blank and not "-"; `Classify` and `NoAddressNoBan` state that without it no ban is requested |
| Watcher.BanReason | RogueBlocker/Services/SecurityEventWatcher.cs:99 | the reason quotes the user name at a fixed place (a null name reads as empty) |
| Watcher.Classify | RogueBlocker/Services/SecurityEventWatcher.cs:82-100 | a ban is requested exactly when the source address is present, not blank and not "-", and the user name is not allowed; it names that address and the reason |
| Watcher.Decide | RogueBlocker/Services/SecurityEventWatcher.cs:66-106 | no record or fewer than 20 properties: nothing; otherwise the address at position 19 is banned exactly when it is actionable and the name at position 5 is not allowed |
| Watcher.DomainAndWorkstationIgnored | RogueBlocker/Services/SecurityEventWatcher.cs:88-100 | domain and workstation never change the decision |
| Watcher.NoAddressNoBan | RogueBlocker/Services/SecurityEventWatcher.cs:82-86 | no address, a blank one or "-": no ban, whatever the user name |
| Watcher.AllowedUserNoBan | RogueBlocker/Services/SecurityEventWatcher.cs:93-100 | a name equal up to case to a configured one is never banned |
| Watcher.DefaultsBanEveryAddress | RogueBlocker/Configuration/RogueBlockerOptions.cs:10 | with the default empty allow list, every event with an actionable address requests a ban of it |
| Watcher.AdminAllowedRootNot | RogueBlocker/Services/SecurityEventWatcher.cs:108-114 | with "admin" allowed, a failure for "Admin" is ignored and one for "root" is acted on |
| Watcher.SecurityEventWatcher.constructor | RogueBlocker/Services/SecurityEventWatcher.cs:19-30 | the allow set is the lower-cased configured names |
| Watcher.SecurityEventWatcher.OnEventRecordWritten | RogueBlocker/Services/SecurityEventWatcher.cs:66-106 | the request made is `Decide`'s; with none the firewall manager and netsh are untouched; with one, the manager has carried out a complete `BanIp` of that address |
| Scenarios.BanTwice | RogueBlocker/Services/FirewallManager.cs:42-46 | once a first ban succeeds, a second one answers false, and exactly one add-rule command was issued |
| Scenarios.BanUnbanUnban | RogueBlocker/Services/FirewallManager.cs:67-82 | after a successful unban the address is not banned; a second unban issues another delete command |
| Scenarios.AdministratorFromDocumentationRange | RogueBlocker/Services/SecurityEventWatcher.cs:93-100 | "Administrator" from 203.0.113.7, with "svc-admin" allowed and prefix "RB_": a ban is requested and the firewall receives exactly one command, the block rule "RB_203_0_113_7" for that address |

## Left out

- Running `netsh` as a process (FirewallManager.cs:125-184) is replaced by the `Netsh` oracle. Exit codes, exceptions and `Encoding.Default` decoding are not modelled; an exception reads as a failed command or an empty output.
- The event-log subscription is not modelled: `Start` with its query for event 4625, `Stop`, `Dispose`, the `EventLogWatcher` and the `EventLogRecord` cast. A record arrives as its property values rendered as text, and a missing record or property is `None`.
- Concurrency is not modelled. The callbacks are `async void` and race on an unsynchronised `HashSet`; each operation is modelled as atomic and sequential.
- `InitializeAsync` only calls the reload and logs a count, so it has no separate member.
- Logging is not modelled. Every log line is left out, including the reason `BanIpAsync` logs. No code reads the `LogBannedIps` setting, so a ban is logged whatever it says; the model keeps the setting only as a field of the options record.
- The exception handler of the reload is not modelled separately: a listing failure is an empty output.
- TextOps.Lower: `ToLowerInvariant` is modelled on ASCII letters only, so non-ASCII user names are compared as written.
- TextOps.ContainsIgnoreCase: `StringComparer.OrdinalIgnoreCase` is modelled on ASCII letters only.
- TextOps.StartsWith: the culture-sensitive `string.StartsWith(string)` used by the reload is modelled as an ordinal prefix test.
- Scenarios.BanUnbanUnban: what a second unban answers depends on the external firewall, which the oracle does not model, so only the command it issues is stated.
- RuleListing.ReconcileListing: assumes netsh prints each rule's RemoteIP field exactly as `remoteip=` passed it. The parser keeps whatever text follows the label, so if netsh prints a normalised form (for example with a "/32" mask), the reloaded entry is not the string `BanIpAsync` tests at FirewallManager.cs:42, and after a restart the same address gets a second add-rule command.
