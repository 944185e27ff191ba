/** The daemon's settings record (RogueBlocker/Configuration/RogueBlockerOptions.cs). */
module Configuration {

  /** Name of the configuration section the options are bound from. */
  const SectionName: string := "RogueBlocker"

  /** The options record; `RogueBlockerOptions()` is the record with every setting at
      its default: no allowed user names, the rule prefix "RogueBlocker_Ban_",
      logging of bans on, and the IPv4 and IPv6 loopback literals whitelisted. */
  datatype RogueBlockerOptions = RogueBlockerOptions(
    allowedUsernames: seq<string> := [],
    firewallRulePrefix: string := "RogueBlocker_Ban_",
    logBannedIps: bool := true,
    whitelistedIps: seq<string> := ["127.0.0.1", "::1"]
  )

  /** What the defaults promise: a non-empty rule prefix that names every managed
      rule, exactly the two loopback literals on the whitelist, an empty user-name
      allow list and ban logging switched on. */
  lemma Defaults()
    ensures |RogueBlockerOptions().firewallRulePrefix| > 0
    ensures RogueBlockerOptions().firewallRulePrefix == "RogueBlocker_Ban_"
    ensures RogueBlockerOptions().whitelistedIps == ["127.0.0.1", "::1"]
    ensures RogueBlockerOptions().allowedUsernames == []
    ensures RogueBlockerOptions().logBannedIps
    ensures SectionName == "RogueBlocker"
  {
  }
}
