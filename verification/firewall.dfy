/** The ban state store and its firewall side (RogueBlocker/Services/FirewallManager.cs):
    the set of banned addresses, the gate in front of every ban, the deterministic
    firewall rule name of an address, and the reload of the set from the firewall's
    rule listing at startup. */
module Firewall {
  import opened TextOps
  import opened Wrappers
  import opened Configuration
  import opened NetshOracle
  import opened RuleListing

  /** The firewall rule that bans `ip`: the prefix, then `ip` with every ':' and '.'
      turned into '_'. Ban and unban use the same name. */
  function RuleName(prefix: string, ip: string): (r: string)
    ensures |r| == |prefix| + |ip|
    ensures StartsWith(r, prefix)
    ensures forall k :: 0 <= k < |ip| ==>
              r[|prefix| + k] == (if ip[k] == ':' || ip[k] == '.' then '_' else ip[k])
    ensures forall k :: |prefix| <= k < |r| ==> r[k] != ':' && r[k] != '.'
  {
    prefix + Replace(Replace(ip, ':', '_'), '.', '_')
  }

  /** The rule name cannot be read back as an address: distinct addresses share one
      name, which is why the reload takes the address from the rule's RemoteIP field. */
  lemma RuleNameIsLossy(prefix: string)
    ensures RuleName(prefix, "10.0.0.1") == RuleName(prefix, "10:0:0:1")
    ensures RuleName(prefix, "10.0.0.1") == RuleName(prefix, "10_0_0_1")
  {
    var a, b, c := RuleName(prefix, "10.0.0.1"), RuleName(prefix, "10:0:0:1"), RuleName(prefix, "10_0_0_1");
    assert forall k :: 0 <= k < |a| ==> a[k] == b[k] == c[k] by {
      forall k | 0 <= k < |a| ensures a[k] == b[k] == c[k] {
        if k >= |prefix| {
          var j := k - |prefix|;
          assert a[|prefix| + j] == c[|prefix| + j];
        }
      }
    }
  }

  /** netsh arguments that add an inbound block rule for `ip` under `ruleName`. */
  function AddRuleArguments(ruleName: string, ip: string): string {
    "advfirewall firewall add rule name=\"" + ruleName + "\" dir=in action=block remoteip=" + ip
  }

  /** netsh arguments that delete the rule(s) named `ruleName`. */
  function DeleteRuleArguments(ruleName: string): string {
    "advfirewall firewall delete rule name=\"" + ruleName + "\""
  }

  /** netsh arguments that list every inbound rule. */
  const ShowRulesArguments: string := "advfirewall firewall show rule name=all dir=in"

  /** `IsIpWhitelisted`: `ip` equals some whitelist entry up to letter case. */
  predicate IsIpWhitelisted(options: RogueBlockerOptions, ip: string) {
    ContainsIgnoreCase(options.whitelistedIps, ip)
  }

  /** The first gate of `BanIpAsync`: an address that is blank, the "-" placeholder
      or whitelisted is refused whatever the state. */
  predicate IsRefused(options: RogueBlockerOptions, ip: string) {
    IsBlank(ip) || ip == "-" || IsIpWhitelisted(options, ip)
  }

  /** No banned address is whitelisted. */
  ghost predicate ExcludesWhitelist(options: RogueBlockerOptions, banned: set<string>) {
    forall ip :: ip in banned ==> !IsIpWhitelisted(options, ip)
  }

  /** Under the default options neither loopback address, in any letter case, gets
      past the gate. */
  lemma LoopbackRefusedByDefault(ip: string)
    requires EqualsIgnoreCase(ip, "127.0.0.1") || EqualsIgnoreCase(ip, "::1")
    ensures IsRefused(RogueBlockerOptions(), ip)
  {
    var wl := RogueBlockerOptions().whitelistedIps;
    if EqualsIgnoreCase(ip, "127.0.0.1") {
      assert EqualsIgnoreCase(wl[0], ip);
    } else {
      assert EqualsIgnoreCase(wl[1], ip);
    }
  }

  /** The reload does not consult the whitelist: a managed rule in the listing bound
      to an address that is neither empty nor "Any" puts that address into the
      reloaded set, whether the options whitelist it or not. */
  lemma ReloadIgnoresWhitelist(options: RogueBlockerOptions, f: ListingFormat, header: seq<string>, rules: seq<PrintedRule>, i: int)
    requires IsLayout(f)
    requires forall l :: l in header ==> IsOtherField(l)
    requires forall r :: r in rules ==> IsPrintedRule(r)
    requires 0 <= i < |rules|
    requires StartsWith(rules[i].name, options.firewallRulePrefix) && IsBannableValue(rules[i].remoteIp)
    ensures rules[i].remoteIp in ManagedIps(options.firewallRulePrefix, Join(header + ListingLines(f, rules), '\n'))
  {
    ReconcileListing(options.firewallRulePrefix, f, header, rules);
    assert rules[i] in rules;
  }

  /** An instance: under the default options, the rule `BanIp` would have created for
      the IPv4 loopback address, listed with "\r\n" line breaks, puts that whitelisted
      address into the banned set. */
  lemma ReloadAdmitsWhitelisted(ip: string)
    requires ip == "127.0.0.1"
    ensures var prefix := RogueBlockerOptions().firewallRulePrefix;
            var rule := PrintedRule(RuleName(prefix, ip), ip, [], []);
            ip in ManagedIps(prefix, Join(ListingLines(ListingFormat(English, " ", "\r"), [rule]), '\n'))
    ensures IsIpWhitelisted(RogueBlockerOptions(), ip)
  {
    var options := RogueBlockerOptions();
    var prefix := options.firewallRulePrefix;
    var f := ListingFormat(English, " ", "\r");
    var rule := PrintedRule(RuleName(prefix, ip), ip, [], []);
    var name := rule.name;
    assert name[0] == 'R' && name[|name| - 1] == '1';
    assert forall k :: 0 <= k < |name| ==> name[k] != '\n';
    assert IsPrintedRule(rule);
    assert IsLayout(f);
    ReloadIgnoresWhitelist(options, f, [], [rule], 0);
    assert [] + ListingLines(f, [rule]) == ListingLines(f, [rule]);
    assert EqualsIgnoreCase(options.whitelistedIps[0], ip);
  }

  class FirewallManager {
    const options: RogueBlockerOptions
    const netsh: Netsh
    /** The addresses this process believes are banned (`_bannedIps`). */
    var bannedIps: set<string>

    constructor (options: RogueBlockerOptions, netsh: Netsh)
      ensures this.options == options && this.netsh == netsh
      ensures bannedIps == {}
    {
      this.options := options;
      this.netsh := netsh;
      bannedIps := {};
    }

    /** `IsIpBanned`: membership, exact and case-sensitive. */
    predicate IsIpBanned(ip: string)
      reads this
    {
      ip in bannedIps
    }

    /** What one `BanIpAsync(ip, _)` call that answered `ok` did. A refused or
        already-banned address answers false and touches neither the set nor the
        firewall. Any other address costs exactly one add-rule command under its rule
        name; the answer is that command's reply, and the address joins the set
        exactly when the reply is success. */
    twostate predicate BanCompleted(ip: string, ok: bool)
      reads this, netsh
    {
      if IsRefused(options, ip) || ip in old(bannedIps) then
        && !ok
        && bannedIps == old(bannedIps)
        && netsh.history == old(netsh.history)
      else
        && netsh.history == old(netsh.history)
             + [Command(AddRuleArguments(RuleName(options.firewallRulePrefix, ip), ip), ok)]
        && bannedIps == (if ok then old(bannedIps) + {ip} else old(bannedIps))
    }

    /** `BanIpAsync`. The reason only feeds the log line. */
    method BanIp(ip: string, reason: string) returns (ok: bool)
      modifies this, netsh
      ensures BanCompleted(ip, ok)
      ensures ok <==> IsIpBanned(ip) && !old(IsIpBanned(ip))
      ensures ExcludesWhitelist(options, old(bannedIps)) ==> ExcludesWhitelist(options, bannedIps)
    {
      if IsRefused(options, ip) {
        return false;
      }
      if ip in bannedIps {
        return false;
      }
      var ruleName := RuleName(options.firewallRulePrefix, ip);
      ok := netsh.RunNetshCommand(AddRuleArguments(ruleName, ip));
      if ok {
        bannedIps := bannedIps + {ip};
      }
    }

    /** `UnbanIpAsync`: always issues the delete command (it does not look at the set
        first), answers its reply, and drops the address from the set exactly when the
        reply is success. No other address is affected. */
    method UnbanIp(ip: string) returns (ok: bool)
      modifies this, netsh
      ensures netsh.history == old(netsh.history)
                + [Command(DeleteRuleArguments(RuleName(options.firewallRulePrefix, ip)), ok)]
      ensures bannedIps == if ok then old(bannedIps) - {ip} else old(bannedIps)
      ensures ok ==> !IsIpBanned(ip)
      ensures ExcludesWhitelist(options, old(bannedIps)) ==> ExcludesWhitelist(options, bannedIps)
    {
      var ruleName := RuleName(options.firewallRulePrefix, ip);
      ok := netsh.RunNetshCommand(DeleteRuleArguments(ruleName));
      if ok {
        bannedIps := bannedIps - {ip};
      }
    }

    /** `LoadExistingBannedIpsAsync`: lists the inbound rules once and adds every
        address the listing announces under a managed rule name; it never removes
        an address, and an empty listing adds nothing. */
    method LoadExistingBannedIps()
      modifies this, netsh
      ensures netsh.history != [] && netsh.history[..|netsh.history| - 1] == old(netsh.history)
      ensures var call := netsh.history[|netsh.history| - 1];
              && call.Listing?
              && call.arguments == ShowRulesArguments
              && bannedIps == old(bannedIps) + ManagedIps(options.firewallRulePrefix, call.output)
    {
      var output := netsh.RunNetshCommandWithOutput(ShowRulesArguments);
      assert netsh.history[..|netsh.history| - 1] == old(netsh.history);
      if output == [] {
        return;
      }
      var prefix := options.firewallRulePrefix;
      var lines := Split(output, '\n');
      var currentRuleName: Option<string> := None;
      ghost var initial := bannedIps;
      ghost var st := Scan(prefix, Kinds(lines[..0]));
      for i := 0 to |lines|
        modifies this
        invariant st == Scan(prefix, Kinds(lines[..i]))
        invariant currentRuleName == st.currentRuleName
        invariant bannedIps == initial + st.found
      {
        ScanStep(prefix, lines, i);
        ghost var kind := KindOf(lines[i]);
        var trimmed := Trim(lines[i]);
        if StartsWith(trimmed, RuleNameLabelZh) || StartsWith(trimmed, RuleNameLabelEn) {
          currentRuleName := Some(Trim(AfterFirst(trimmed, ':')));
          assert kind == RuleNameLine(currentRuleName.value);
        } else if (StartsWith(trimmed, RemoteIpLabelEn) || StartsWith(trimmed, RemoteIpLabelZh))
                  && currentRuleName.Some? && StartsWith(currentRuleName.value, prefix) {
          var ip := Trim(AfterFirst(trimmed, ':'));
          assert kind == RemoteIpLine(ip);
          if ip != [] && ip != "Any" {
            bannedIps := bannedIps + {ip};
          }
        }
        st := ScanLine(prefix, st, kind);
      }
      assert lines[..|lines|] == lines;
    }
  }
}
