/** The failed-logon classifier (RogueBlocker/Services/SecurityEventWatcher.cs): the
    fields it reads from a Windows Security event 4625, the case-insensitive user-name
    allow list, and the rule that turns an event into a ban request. */
module Watcher {
  import opened TextOps
  import opened Wrappers
  import opened Configuration
  import Firewall

  /** The fields of a failed logon the classifier uses; each may be null. */
  datatype LoginAttemptInfo = LoginAttemptInfo(
    targetUsername: Option<string>,
    targetDomain: Option<string>,
    workstationName: Option<string>,
    sourceIp: Option<string>
  )

  /** An event record's properties, each rendered as text (`None` for a null
      property or a null value). */
  type EventProperties = seq<Option<string>>

  /** `GetEventProperties`: a record with fewer than 20 properties is ignored;
      otherwise the user name, domain, workstation and source address are the
      properties at positions 5, 6, 11 and 19. */
  function GetEventProperties(properties: EventProperties): (r: Option<LoginAttemptInfo>)
    ensures r.Some? <==> |properties| >= 20
  {
    if |properties| < 20 then None
    else Some(LoginAttemptInfo(properties[5], properties[6], properties[11], properties[19]))
  }

  /** A property vector of an event 4625 that carries `info` at the four positions
      the classifier reads and `filler` everywhere else. */
  function EventPropertiesOf(info: LoginAttemptInfo, filler: Option<string>): (p: EventProperties)
    ensures |p| == 20
  {
    seq(20, i requires 0 <= i < 20 =>
      if i == 5 then info.targetUsername
      else if i == 6 then info.targetDomain
      else if i == 11 then info.workstationName
      else if i == 19 then info.sourceIp
      else filler)
  }

  /** Extraction reads back exactly the fields placed at the fixed positions. */
  lemma GetEventPropertiesRoundTrip(info: LoginAttemptInfo, filler: Option<string>)
    ensures GetEventProperties(EventPropertiesOf(info, filler)) == Some(info)
  {
  }

  /** Extraction depends on the four fixed positions only. */
  lemma GetEventPropertiesReadsFixedPositions(p: EventProperties, q: EventProperties)
    requires |p| >= 20 && |q| >= 20
    requires p[5] == q[5] && p[6] == q[6] && p[11] == q[11] && p[19] == q[19]
    ensures GetEventProperties(p) == GetEventProperties(q)
  {
  }

  /** The allow list as built by the constructor: every configured name, lower-cased. */
  function AllowedUsernamesLower(names: seq<string>): (r: set<string>)
    ensures forall i :: 0 <= i < |names| ==> Lower(names[i]) in r
    ensures forall x :: x in r ==> exists i :: 0 <= i < |names| && Lower(names[i]) == x
  {
    set i | 0 <= i < |names| :: Lower(names[i])
  }

  /** `IsUsernameAllowed`: a null or blank name is never allowed; any other name is
      allowed when its lower-cased form is in the allow set. */
  predicate IsUsernameAllowed(allowedLower: set<string>, username: Option<string>) {
    if username.None? || IsBlank(username.value) then false
    else Lower(username.value) in allowedLower
  }

  /** The allow-list lookup ignores letter case: a name is allowed exactly when it is
      not blank and equals some configured name up to case. */
  lemma {:induction false} UsernameMatchIgnoresCase(names: seq<string>, username: Option<string>)
    ensures IsUsernameAllowed(AllowedUsernamesLower(names), username) <==>
            && username.Some?
            && !IsBlank(username.value)
            && exists i :: 0 <= i < |names| && EqualsIgnoreCase(names[i], username.value)
  {
    if username.Some? && !IsBlank(username.value) {
      var u := username.value;
      var allowed := AllowedUsernamesLower(names);
      if Lower(u) in allowed {
        var i :| 0 <= i < |names| && Lower(names[i]) == Lower(u);
        assert EqualsIgnoreCase(names[i], u);
      }
      if exists i :: 0 <= i < |names| && EqualsIgnoreCase(names[i], u) {
        var i :| 0 <= i < |names| && EqualsIgnoreCase(names[i], u);
        assert Lower(names[i]) in allowed;
      }
    }
  }

  /** The event names an address that can be acted on: present, not blank, not "-". */
  predicate HasSourceIp(info: LoginAttemptInfo) {
    info.sourceIp.Some? && !IsBlank(info.sourceIp.value) && info.sourceIp.value != "-"
  }

  /** A request to ban `ip`, with the reason the ban is logged under. */
  datatype BanRequest = BanRequest(ip: string, reason: string)

  const ReasonHead: string := "使用非法用户名 '"
  const ReasonTail: string := "' 尝试登录"

  /** The ban reason: it quotes the offending user name (a null name reads as
      empty). */
  function BanReason(username: Option<string>): (r: string)
    ensures var u := username.GetOr([]);
            |r| == |ReasonHead| + |u| + |ReasonTail| && r[|ReasonHead|..|ReasonHead| + |u|] == u
  {
    ReasonHead + username.GetOr([]) + ReasonTail
  }

  /** The classification in `OnEventRecordWritten`: a ban of the source address is
      requested exactly when the event names an address and the user name is not
      allowed. */
  function Classify(allowedLower: set<string>, info: LoginAttemptInfo): (r: Option<BanRequest>)
    ensures r.Some? <==> HasSourceIp(info) && !IsUsernameAllowed(allowedLower, info.targetUsername)
    ensures r.Some? ==> r.value == BanRequest(info.sourceIp.value, BanReason(info.targetUsername))
  {
    if !HasSourceIp(info) then
      None
    else if !IsUsernameAllowed(allowedLower, info.targetUsername) then
      Some(BanRequest(info.sourceIp.value, BanReason(info.targetUsername)))
    else
      None
  }

  /** The whole decision for one notification: no record, or a record with fewer
      than 20 properties, requests nothing; otherwise the address at position 19 is
      banned exactly when it is actionable and the user name at position 5 is not
      allowed. */
  function Decide(allowedLower: set<string>, record: Option<EventProperties>): (r: Option<BanRequest>)
    ensures r.Some? <==>
              && record.Some? && |record.value| >= 20
              && var ip := record.value[19];
                 && ip.Some? && !IsBlank(ip.value) && ip.value != "-"
                 && !IsUsernameAllowed(allowedLower, record.value[5])
    ensures r.Some? ==> r.value == BanRequest(record.value[19].value, BanReason(record.value[5]))
  {
    if record.None? then None
    else
      match GetEventProperties(record.value)
      case None => None
      case Some(info) => Classify(allowedLower, info)
  }

  /** The target domain and the workstation name only feed the log: they never change
      the decision. */
  lemma DomainAndWorkstationIgnored(allowedLower: set<string>, info: LoginAttemptInfo, domain: Option<string>, workstation: Option<string>)
    ensures Classify(allowedLower, info.(targetDomain := domain, workstationName := workstation))
            == Classify(allowedLower, info)
  {
  }

  /** An event without an actionable address never leads to a ban, whatever the
      user name. */
  lemma NoAddressNoBan(allowedLower: set<string>, info: LoginAttemptInfo)
    requires !HasSourceIp(info)
    ensures Classify(allowedLower, info).None?
  {
  }

  /** A failed logon with an allowed user name never leads to a ban. */
  lemma AllowedUserNoBan(names: seq<string>, info: LoginAttemptInfo, i: int)
    requires 0 <= i < |names| && info.targetUsername.Some?
    requires !IsBlank(info.targetUsername.value)
    requires EqualsIgnoreCase(names[i], info.targetUsername.value)
    ensures Classify(AllowedUsernamesLower(names), info).None?
  {
    UsernameMatchIgnoresCase(names, info.targetUsername);
  }

  /** Under the default options the allow list is empty, so every event that names an
      address leads to a ban request for it. */
  lemma DefaultsBanEveryAddress(info: LoginAttemptInfo)
    requires HasSourceIp(info)
    ensures Classify(AllowedUsernamesLower(RogueBlockerOptions().allowedUsernames), info)
            == Some(BanRequest(info.sourceIp.value, BanReason(info.targetUsername)))
  {
    assert AllowedUsernamesLower(RogueBlockerOptions().allowedUsernames) == {};
  }

  /** With "admin" on the allow list, a failure for "Admin" is ignored and one for
      "root" is acted on. */
  lemma AdminAllowedRootNot(ip: string)
    requires !IsBlank(ip) && ip != "-"
    ensures Classify(AllowedUsernamesLower(["admin"]), LoginAttemptInfo(Some("Admin"), None, None, Some(ip))).None?
    ensures Classify(AllowedUsernamesLower(["admin"]), LoginAttemptInfo(Some("root"), None, None, Some(ip))).Some?
  {
    UsernameMatchIgnoresCase(["admin"], Some("Admin"));
    UsernameMatchIgnoresCase(["admin"], Some("root"));
    assert !IsWhiteSpace("Admin"[0]) && !IsWhiteSpace("root"[0]);
    assert Lower("Admin") == "admin" == Lower("admin");
    assert EqualsIgnoreCase(["admin"][0], "Admin");
    assert Lower("root")[0] == 'r' && Lower("admin")[0] == 'a';
  }

  class SecurityEventWatcher {
    const options: RogueBlockerOptions
    const firewallManager: Firewall.FirewallManager
    /** `_allowedUsernamesLower`. */
    const allowedUsernamesLower: set<string>

    constructor (options: RogueBlockerOptions, firewallManager: Firewall.FirewallManager)
      ensures this.options == options && this.firewallManager == firewallManager
      ensures allowedUsernamesLower == AllowedUsernamesLower(options.allowedUsernames)
    {
      this.options := options;
      this.firewallManager := firewallManager;
      allowedUsernamesLower := AllowedUsernamesLower(options.allowedUsernames);
    }

    /** `OnEventRecordWritten` for one notification. It returns the ban it requested,
        if any: when there is none, the firewall manager is left as it was; when
        there is one, the manager has carried out `BanIpAsync` for that address. */
    method OnEventRecordWritten(record: Option<EventProperties>) returns (request: Option<BanRequest>)
      modifies firewallManager, firewallManager.netsh
      ensures request == Decide(allowedUsernamesLower, record)
      ensures request.None? ==> unchanged(firewallManager, firewallManager.netsh)
      ensures request.Some? ==> exists ok :: firewallManager.BanCompleted(request.value.ip, ok)
    {
      request := None;
      if record.None? {
        return;
      }
      var properties := GetEventProperties(record.value);
      if properties.None? {
        return;
      }
      var targetUsername := properties.value.targetUsername;
      var sourceIp := properties.value.sourceIp;
      if !HasSourceIp(properties.value) {
        return;
      }
      if !IsUsernameAllowed(allowedUsernamesLower, targetUsername) {
        request := Some(BanRequest(sourceIp.value, BanReason(targetUsername)));
        var ok := firewallManager.BanIp(sourceIp.value, request.value.reason);
      }
    }
  }
}
