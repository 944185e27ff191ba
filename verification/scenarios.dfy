/** Client code driving the firewall manager and the watcher through three call
    sequences: a repeated ban, a ban followed by two unbans, and one failed logon
    travelling from the event to the firewall command. */
module Scenarios {
  import opened Wrappers
  import opened TextOps
  import opened Configuration
  import opened NetshOracle
  import opened Firewall
  import opened Watcher

  /** Two bans of the same address in a row. Once the first has succeeded, the
      second answers false and issues no command, so exactly one add-rule command
      was issued for the address; when both fail, the set is as it was. */
  method BanTwice(manager: FirewallManager, ip: string, reason1: string, reason2: string)
    returns (first: bool, second: bool)
    modifies manager, manager.netsh
    ensures first ==> !second && manager.IsIpBanned(ip)
    ensures first ==>
              manager.netsh.history == old(manager.netsh.history)
                + [Command(AddRuleArguments(RuleName(manager.options.firewallRulePrefix, ip), ip), true)]
    ensures !first && !second ==> manager.bannedIps == old(manager.bannedIps)
  {
    first := manager.BanIp(ip, reason1);
    second := manager.BanIp(ip, reason2);
  }

  /** A ban, an unban and a second unban of one address. After a successful unban
      the address is not banned; the second unban still issues a delete command,
      because unbanning does not look at the set first. */
  method BanUnbanUnban(manager: FirewallManager, ip: string, reason: string)
    returns (banned: bool, unbanned: bool, unbannedAgain: bool)
    modifies manager, manager.netsh
    ensures unbanned ==> !manager.IsIpBanned(ip)
    ensures banned && !unbanned && !unbannedAgain ==> manager.IsIpBanned(ip)
    ensures var delete := DeleteRuleArguments(RuleName(manager.options.firewallRulePrefix, ip));
            |manager.netsh.history| >= 2
            && manager.netsh.history[|manager.netsh.history| - 2] == Command(delete, unbanned)
            && manager.netsh.history[|manager.netsh.history| - 1] == Command(delete, unbannedAgain)
  {
    banned := manager.BanIp(ip, reason);
    unbanned := manager.UnbanIp(ip);
    unbannedAgain := manager.UnbanIp(ip);
  }

  /** The scenario's address gets past the default whitelist. */
  lemma ScenarioAddressNotWhitelisted(ip: string)
    requires ip == "203.0.113.7"
    ensures !IsRefused(RogueBlockerOptions(firewallRulePrefix := "RB_"), ip)
  {
    assert !IsWhiteSpace(ip[0]);
    assert |Lower(ip)| != |Lower("127.0.0.1")| && |Lower(ip)| != |Lower("::1")|;
  }

  /** "Administrator" is not "svc-admin" in any letter case. */
  lemma ScenarioUserNotAllowed(user: string)
    requires user == "Administrator"
    ensures !IsUsernameAllowed(AllowedUsernamesLower(["svc-admin"]), Some(user))
  {
    UsernameMatchIgnoresCase(["svc-admin"], Some(user));
    assert Lower(user)[0] == 'a' && Lower("svc-admin")[0] == 's';
  }

  /** The scenario's rule name. */
  lemma ScenarioRuleName(ip: string)
    requires ip == "203.0.113.7"
    ensures RuleName("RB_", ip) == "RB_203_0_113_7"
  {
  }

  /** A failed logon by "Administrator" from 203.0.113.7, with "svc-admin" on the
      allow list and the rule prefix "RB_": the event is classified as hostile and
      the firewall receives exactly one command, an inbound block rule named
      "RB_203_0_113_7" for that address. */
  method AdministratorFromDocumentationRange() returns (request: Option<BanRequest>, history: seq<Call>)
    ensures request.Some? && request.value.ip == "203.0.113.7"
    ensures |history| == 1 && history[0].Command?
    ensures history[0].arguments == AddRuleArguments("RB_203_0_113_7", "203.0.113.7")
  {
    var netsh := new Netsh();
    var options := RogueBlockerOptions(allowedUsernames := ["svc-admin"], firewallRulePrefix := "RB_");
    var manager := new FirewallManager(options, netsh);
    var watcher := new SecurityEventWatcher(options, manager);
    var ip := "203.0.113.7";
    var user := "Administrator";
    var info := LoginAttemptInfo(Some(user), None, None, Some(ip));
    GetEventPropertiesRoundTrip(info, None);
    ScenarioAddressNotWhitelisted(ip);
    ScenarioUserNotAllowed(user);
    ScenarioRuleName(ip);
    request := watcher.OnEventRecordWritten(Some(EventPropertiesOf(info, None)));
    history := netsh.history;
  }
}
