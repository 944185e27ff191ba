/** Reading the banned addresses back out of the text that
    `netsh advfirewall firewall show rule name=all dir=in` prints. The listing is a
    sequence of blocks, one per rule; the parser looks only at the "Rule Name:" line
    that opens a block and at the "RemoteIP:" lines under it (English or Chinese
    labels), and keeps the remote address of every rule whose name carries the
    managed prefix. */
module RuleListing {
  import opened TextOps
  import opened Wrappers

  const RuleNameLabelZh: string := "规则名称:"
  const RuleNameLabelEn: string := "Rule Name:"
  const RemoteIpLabelEn: string := "RemoteIP:"
  const RemoteIpLabelZh: string := "远程 IP:"

  /** What the parser sees in one line of the listing. The rule-name labels are
      tested first, so a line is a remote-address line only when it is not a
      rule-name line. A field's value is the trimmed text after the first colon. */
  datatype LineKind =
    | RuleNameLine(name: string)
    | RemoteIpLine(ip: string)
    | OtherLine

  function KindOf(line: string): LineKind {
    var t := Trim(line);
    if StartsWith(t, RuleNameLabelZh) || StartsWith(t, RuleNameLabelEn) then
      RuleNameLine(Trim(AfterFirst(t, ':')))
    else if StartsWith(t, RemoteIpLabelEn) || StartsWith(t, RemoteIpLabelZh) then
      RemoteIpLine(Trim(AfterFirst(t, ':')))
    else
      OtherLine
  }

  /** The two label sets the parser accepts; which one netsh prints depends on the
      display language of Windows. */
  datatype Labels = English | Chinese

  function RuleNameLabel(labels: Labels): string {
    if labels == English then RuleNameLabelEn else RuleNameLabelZh
  }

  function RemoteIpLabel(labels: Labels): string {
    if labels == English then RemoteIpLabelEn else RemoteIpLabelZh
  }

  /** How netsh lays out a field line: the label set, the white space between a
      label and its value (netsh pads the values to one column), and the white space
      before the line's '\n' (the '\r' of a "\r\n" line break). */
  datatype ListingFormat = ListingFormat(labels: Labels, padding: string, lineEnd: string)

  predicate IsLayout(f: ListingFormat) {
    && IsBlank(f.padding) && '\n' !in f.padding
    && IsBlank(f.lineEnd) && '\n' !in f.lineEnd
  }

  /** A field line as netsh prints it. */
  function FieldLine(f: ListingFormat, tag: string, value: string): string {
    tag + f.padding + value + f.lineEnd
  }

  /** A value with no white space at either end. */
  predicate IsTrimmed(v: string) {
    v == [] || (!IsWhiteSpace(v[0]) && !IsWhiteSpace(v[|v| - 1]))
  }

  /** Trimming a "label padding value line-end" line drops the line end, and the
      padding too when the value is empty. */
  lemma TrimFieldLine(tag: string, pad: string, v: string, end: string)
    requires |tag| > 0 && !IsWhiteSpace(tag[0]) && !IsWhiteSpace(tag[|tag| - 1])
    requires IsBlank(pad) && IsTrimmed(v) && IsBlank(end)
    ensures Trim(tag + pad + v + end) == if v == [] then tag else tag + pad + v
  {
    var line := tag + pad + v;
    assert (line + end)[0] == tag[0];
    assert TrimStart(line + end) == line + end;
    TrimEndBlankTail(line, end);
    if v == [] {
      assert line == tag + pad;
      TrimEndBlankTail(tag, pad);
    } else {
      assert line[|line| - 1] == v[|v| - 1];
    }
  }

  /** What follows the first colon of a text that starts with a label ending in its
      only colon is the rest of the text. */
  lemma AfterLabel(tag: string, rest: string)
    requires |tag| > 0 && tag[|tag| - 1] == ':' && ':' !in tag[..|tag| - 1]
    ensures AfterFirst(tag + rest, ':') == rest
  {
    var t := tag + rest;
    var k := |tag| - 1;
    assert t[k] == ':' && t[..k] == tag[..k];
    assert IndexOf(t, ':') == k;
    assert t[k + 1..] == rest;
  }

  /** A trimmed value after white space trims back to the value. */
  lemma TrimBlankHead(pad: string, v: string)
    requires IsBlank(pad) && IsTrimmed(v)
    ensures Trim(pad + v) == v
  {
    TrimStartBlankHead(pad, v);
    TrimOfTrimmed(v);
  }

  /** Reading a field line: trimming, then taking what follows the label's colon,
      gives back the value. */
  lemma FieldValueOf(tag: string, pad: string, v: string, end: string)
    requires |tag| > 0 && tag[|tag| - 1] == ':' && ':' !in tag[..|tag| - 1]
    requires !IsWhiteSpace(tag[0])
    requires IsBlank(pad) && IsTrimmed(v) && IsBlank(end)
    ensures var t := Trim(tag + pad + v + end);
            StartsWith(t, tag) && Trim(AfterFirst(t, ':')) == v
  {
    TrimFieldLine(tag, pad, v, end);
    if v == [] {
      AfterLabel(tag, []);
      assert tag + [] == tag;
    } else {
      assert tag + pad + v == tag + (pad + v);
      AfterLabel(tag, pad + v);
      TrimBlankHead(pad, v);
    }
  }

  /** The parser reads the line netsh prints for a rule name, under either label
      set, as that rule name. */
  lemma RuleNameLineRoundTrip(f: ListingFormat, name: string)
    requires IsLayout(f) && IsTrimmed(name)
    ensures KindOf(FieldLine(f, RuleNameLabel(f.labels), name)) == RuleNameLine(name)
  {
    if f.labels == English {
      FieldValueOf(RuleNameLabelEn, f.padding, name, f.lineEnd);
    } else {
      FieldValueOf(RuleNameLabelZh, f.padding, name, f.lineEnd);
    }
  }

  /** The parser reads the line netsh prints for a remote address, under either
      label set, as that address: the rule-name labels do not catch it. */
  lemma RemoteIpLineRoundTrip(f: ListingFormat, ip: string)
    requires IsLayout(f) && IsTrimmed(ip)
    ensures KindOf(FieldLine(f, RemoteIpLabel(f.labels), ip)) == RemoteIpLine(ip)
  {
    var t := Trim(FieldLine(f, RemoteIpLabel(f.labels), ip));
    if f.labels == English {
      FieldValueOf(RemoteIpLabelEn, f.padding, ip, f.lineEnd);
      var head := t[..|RemoteIpLabelEn|];
      assert head == RemoteIpLabelEn;
      assert t[0] == head[0] == 'R' && t[1] == head[1] == 'e';
      assert !StartsWith(t, RuleNameLabelZh) by {
        assert RuleNameLabelZh[0] != t[0];
      }
      assert !StartsWith(t, RuleNameLabelEn) by {
        assert RuleNameLabelEn[1] != t[1];
      }
    } else {
      FieldValueOf(RemoteIpLabelZh, f.padding, ip, f.lineEnd);
      var head := t[..|RemoteIpLabelZh|];
      assert head == RemoteIpLabelZh;
      assert t[0] == head[0] == '远';
      assert !StartsWith(t, RuleNameLabelZh) by {
        assert RuleNameLabelZh[0] != t[0];
      }
      assert !StartsWith(t, RuleNameLabelEn) by {
        assert RuleNameLabelEn[0] != t[0];
      }
    }
  }

  /** The kinds of the lines of a listing, line by line. */
  function Kinds(lines: seq<string>): (r: seq<LineKind>)
    ensures |r| == |lines|
  {
    if lines == [] then [] else Kinds(lines[..|lines| - 1]) + [KindOf(lines[|lines| - 1])]
  }

  /** Reading one more line is one more parser step. */
  lemma ScanStep(prefix: string, lines: seq<string>, i: nat)
    requires i < |lines|
    ensures Scan(prefix, Kinds(lines[..i + 1])) == ScanLine(prefix, Scan(prefix, Kinds(lines[..i])), KindOf(lines[i]))
  {
    assert lines[..i + 1][..i] == lines[..i];
    var ks := Kinds(lines[..i]);
    assert Kinds(lines[..i + 1]) == ks + [KindOf(lines[i])];
    assert (ks + [KindOf(lines[i])])[..i] == ks;
  }

  /** A remote-address value the parser accepts as a banned address. */
  predicate IsBannableValue(ip: string) {
    ip != [] && ip != "Any"
  }

  /** The parser's state between lines: the name of the rule whose block is being
      read (none before the first rule-name line) and the addresses found so far. */
  datatype ScanState = ScanState(currentRuleName: Option<string>, found: set<string>)

  /** One step of the parser. */
  function ScanLine(prefix: string, st: ScanState, kind: LineKind): ScanState {
    match kind
    case RuleNameLine(name) => st.(currentRuleName := Some(name))
    case RemoteIpLine(ip) =>
      if st.currentRuleName.Some? && StartsWith(st.currentRuleName.value, prefix) && IsBannableValue(ip)
      then st.(found := st.found + {ip})
      else st
    case OtherLine => st
  }

  /** The parser's state after the given lines, read first to last. */
  function Scan(prefix: string, kinds: seq<LineKind>): ScanState {
    if kinds == [] then ScanState(None, {})
    else ScanLine(prefix, Scan(prefix, kinds[..|kinds| - 1]), kinds[|kinds| - 1])
  }

  /** The addresses recovered from a whole listing; an empty listing gives none. */
  function ManagedIps(prefix: string, output: string): set<string> {
    if output == [] then {} else Scan(prefix, Kinds(Split(output, '\n'))).found
  }

  /** Line i is the last rule-name line before position j: line j (if any) belongs to
      the block that line i opens. */
  ghost predicate LatestRuleName(kinds: seq<LineKind>, i: int, j: int) {
    && 0 <= i < j <= |kinds|
    && kinds[i].RuleNameLine?
    && forall k :: i < k < j ==> !kinds[k].RuleNameLine?
  }

  /** The listing announces `ip` as banned: some remote-address line with value `ip`
      sits in the block of a rule whose name starts with the prefix, and `ip` is
      neither empty nor "Any". */
  ghost predicate Announces(prefix: string, kinds: seq<LineKind>, ip: string) {
    exists i, j ::
      && LatestRuleName(kinds, i, j)
      && j < |kinds|
      && StartsWith(kinds[i].name, prefix)
      && kinds[j] == RemoteIpLine(ip)
      && IsBannableValue(ip)
  }

  /** LatestRuleName only looks at the lines before j. */
  lemma LatestRuleNameOfPrefix(kinds: seq<LineKind>, n: nat, i: int, j: int)
    requires n <= |kinds| && j <= n
    ensures LatestRuleName(kinds[..n], i, j) <==> LatestRuleName(kinds, i, j)
  {
    if 0 <= i < j {
      assert forall k :: i <= k < j ==> kinds[..n][k] == kinds[k];
    }
  }

  /** The parser's current rule name is the name on the last rule-name line read so
      far, and there is none before the first rule-name line. */
  lemma {:induction false} ScanCurrent(prefix: string, kinds: seq<LineKind>)
    ensures Scan(prefix, kinds).currentRuleName.None? <==> forall i :: 0 <= i < |kinds| ==> !kinds[i].RuleNameLine?
    ensures forall i :: LatestRuleName(kinds, i, |kinds|) ==> Scan(prefix, kinds).currentRuleName == Some(kinds[i].name)
  {
    if kinds != [] {
      var n := |kinds| - 1;
      var init := kinds[..n];
      ScanCurrent(prefix, init);
      assert forall k :: 0 <= k < n ==> init[k] == kinds[k];
      if kinds[n].RuleNameLine? {
        forall i | LatestRuleName(kinds, i, |kinds|)
          ensures i == n
        {
        }
      } else {
        forall i | LatestRuleName(kinds, i, |kinds|)
          ensures Scan(prefix, kinds).currentRuleName == Some(kinds[i].name)
        {
          LatestRuleNameOfPrefix(kinds, n, i, n);
        }
      }
    }
  }

  /** The current rule name after the lines is the one on the latest rule-name line. */
  lemma ScanCurrentIs(prefix: string, kinds: seq<LineKind>, i: int)
    requires LatestRuleName(kinds, i, |kinds|)
    ensures Scan(prefix, kinds).currentRuleName == Some(kinds[i].name)
  {
    ScanCurrent(prefix, kinds);
  }

  /** A pair announced by a listing stays announced when a line is appended. */
  lemma AnnouncesGrow(prefix: string, kinds: seq<LineKind>, ip: string)
    requires kinds != []
    ensures Announces(prefix, kinds[..|kinds| - 1], ip) ==> Announces(prefix, kinds, ip)
  {
    var n := |kinds| - 1;
    var init := kinds[..n];
    if Announces(prefix, init, ip) {
      var i, j :| && LatestRuleName(init, i, j) && j < |init|
                  && StartsWith(init[i].name, prefix)
                  && init[j] == RemoteIpLine(ip) && IsBannableValue(ip);
      LatestRuleNameOfPrefix(kinds, n, i, j);
    }
  }

  /** A RemoteIP line under a current rule name that carries the prefix announces its
      value. */
  lemma AnnouncesNewPair(prefix: string, kinds: seq<LineKind>, ip: string)
    requires kinds != []
    requires var current := Scan(prefix, kinds[..|kinds| - 1]).currentRuleName;
             && kinds[|kinds| - 1] == RemoteIpLine(ip) && current.Some?
             && StartsWith(current.value, prefix) && IsBannableValue(ip)
    ensures Announces(prefix, kinds, ip)
  {
    var n := |kinds| - 1;
    var init := kinds[..n];
    ScanCurrent(prefix, init);
    var i :| 0 <= i < |init| && init[i].RuleNameLine?;
    var i' := LastRuleNameIndex(init, i);
    LatestRuleNameOfPrefix(kinds, n, i', n);
    assert init[i'] == kinds[i'];
  }

  /** Appending a line announces nothing but the pair that ends on it. */
  lemma AnnouncesOnlyNewPair(prefix: string, kinds: seq<LineKind>, ip: string)
    requires kinds != []
    requires Announces(prefix, kinds, ip)
    ensures var n := |kinds| - 1;
            var current := Scan(prefix, kinds[..n]).currentRuleName;
            || Announces(prefix, kinds[..n], ip)
            || (&& kinds[n] == RemoteIpLine(ip) && current.Some?
                && StartsWith(current.value, prefix) && IsBannableValue(ip))
  {
    var n := |kinds| - 1;
    var init := kinds[..n];
    var i, j :| && LatestRuleName(kinds, i, j) && j < |kinds|
                && StartsWith(kinds[i].name, prefix)
                && kinds[j] == RemoteIpLine(ip) && IsBannableValue(ip);
    LatestRuleNameOfPrefix(kinds, n, i, j);
    assert LatestRuleName(init, i, j);
    if j < n {
      assert init[i] == kinds[i] && init[j] == kinds[j];
      assert Announces(prefix, init, ip);
    } else {
      ScanCurrentIs(prefix, init, i);
      var current := Scan(prefix, init).currentRuleName;
      assert current == Some(init[i].name);
      assert init[i] == kinds[i];
      assert && kinds[n] == RemoteIpLine(ip) && current.Some?
             && StartsWith(current.value, prefix) && IsBannableValue(ip);
    }
  }

  /** What one more line adds to the announced addresses: at most the pair that ends
      on it, a RemoteIP line under a current rule name that carries the prefix. */
  lemma AnnouncesLast(prefix: string, kinds: seq<LineKind>, ip: string)
    requires kinds != []
    ensures var n := |kinds| - 1;
            var current := Scan(prefix, kinds[..n]).currentRuleName;
            Announces(prefix, kinds, ip) <==>
              || Announces(prefix, kinds[..n], ip)
              || (&& kinds[n] == RemoteIpLine(ip) && current.Some?
                  && StartsWith(current.value, prefix) && IsBannableValue(ip))
  {
    var n := |kinds| - 1;
    var current := Scan(prefix, kinds[..n]).currentRuleName;
    AnnouncesGrow(prefix, kinds, ip);
    if kinds[n] == RemoteIpLine(ip) && current.Some? && StartsWith(current.value, prefix) && IsBannableValue(ip) {
      AnnouncesNewPair(prefix, kinds, ip);
    }
    if Announces(prefix, kinds, ip) {
      AnnouncesOnlyNewPair(prefix, kinds, ip);
    }
  }

  /** The parser finds exactly the announced addresses: `Scan` agrees with the
      declarative reading `Announces` of the listing. */
  lemma {:induction false} ScanFound(prefix: string, kinds: seq<LineKind>, ip: string)
    ensures ip in Scan(prefix, kinds).found <==> Announces(prefix, kinds, ip)
  {
    if kinds != [] {
      ScanFound(prefix, kinds[..|kinds| - 1], ip);
      AnnouncesLast(prefix, kinds, ip);
    }
  }

  /** A rule-name line whose name lacks the prefix closes the current block: the
      remote-address lines after it, up to the next rule-name line, add nothing. */
  lemma {:induction false} UnmanagedBlockAddsNothing(prefix: string, before: seq<LineKind>, name: string, rest: seq<LineKind>)
    requires !StartsWith(name, prefix)
    requires forall k :: 0 <= k < |rest| ==> !rest[k].RuleNameLine?
    ensures Scan(prefix, before + [RuleNameLine(name)] + rest) == ScanState(Some(name), Scan(prefix, before).found)
  {
    var all := before + [RuleNameLine(name)] + rest;
    if rest == [] {
      assert all[..|all| - 1] == before;
    } else {
      var n := |rest| - 1;
      assert all[..|all| - 1] == before + [RuleNameLine(name)] + rest[..n];
      UnmanagedBlockAddsNothing(prefix, before, name, rest[..n]);
    }
  }

  /** The index of the last rule-name line, given that there is one at or after i0. */
  lemma {:induction false} LastRuleNameIndex(kinds: seq<LineKind>, i0: int) returns (i: int)
    requires 0 <= i0 < |kinds| && kinds[i0].RuleNameLine?
    ensures i0 <= i && LatestRuleName(kinds, i, |kinds|)
    decreases |kinds| - i0
  {
    if forall k :: i0 < k < |kinds| ==> !kinds[k].RuleNameLine? {
      i := i0;
    } else {
      var k :| i0 < k < |kinds| && kinds[k].RuleNameLine?;
      i := LastRuleNameIndex(kinds, k);
    }
  }

  /** The kinds of two listings in a row are the kinds of each. */
  lemma {:induction false} KindsAppend(a: seq<string>, b: seq<string>)
    ensures Kinds(a + b) == Kinds(a) + Kinds(b)
  {
    if b != [] {
      var n := |b| - 1;
      KindsAppend(a, b[..n]);
      assert (a + b)[..|a + b| - 1] == a + b[..n];
    } else {
      assert a + b == a;
    }
  }

  /** A field value netsh can print on one line: trimmed, without a line break. */
  predicate IsPrintable(v: string) {
    IsTrimmed(v) && '\n' !in v
  }

  /** A line of a listing that carries none of the parser's labels: the separator
      under a rule name, a field such as "LocalIP:", a blank line, "Ok.". */
  predicate IsOtherField(line: string) {
    '\n' !in line && KindOf(line) == OtherLine
  }

  /** One rule as netsh lists it: its name, its remote address, and the other lines
      of its block, before and after the RemoteIP line. */
  datatype PrintedRule = PrintedRule(name: string, remoteIp: string, fieldsBefore: seq<string>, fieldsAfter: seq<string>)

  predicate IsPrintedRule(r: PrintedRule) {
    && IsPrintable(r.name) && IsPrintable(r.remoteIp)
    && (forall l :: l in r.fieldsBefore ==> IsOtherField(l))
    && (forall l :: l in r.fieldsAfter ==> IsOtherField(l))
  }

  /** The block of lines netsh prints for one rule. */
  function RuleLines(f: ListingFormat, r: PrintedRule): seq<string> {
    [FieldLine(f, RuleNameLabel(f.labels), r.name)] + r.fieldsBefore
      + [FieldLine(f, RemoteIpLabel(f.labels), r.remoteIp)] + r.fieldsAfter
  }

  /** The blocks of the given rules, in order. */
  function ListingLines(f: ListingFormat, rules: seq<PrintedRule>): seq<string> {
    if rules == [] then []
    else ListingLines(f, rules[..|rules| - 1]) + RuleLines(f, rules[|rules| - 1])
  }

  /** `n` lines that the parser passes over. */
  function Others(n: nat): (r: seq<LineKind>)
    ensures |r| == n && forall k :: 0 <= k < n ==> r[k] == OtherLine
  {
    seq(n, _ => OtherLine)
  }

  /** What the parser should see in the block of a rule. */
  function BlockKinds(r: PrintedRule): seq<LineKind> {
    [RuleNameLine(r.name)] + Others(|r.fieldsBefore|) + [RemoteIpLine(r.remoteIp)] + Others(|r.fieldsAfter|)
  }

  /** What the parser should see in a listing of the given rules. */
  function ListingKinds(rules: seq<PrintedRule>): seq<LineKind> {
    if rules == [] then [] else ListingKinds(rules[..|rules| - 1]) + BlockKinds(rules[|rules| - 1])
  }

  /** The addresses of the managed rules among `rules`. */
  function ManagedAddresses(prefix: string, rules: seq<PrintedRule>): set<string> {
    set r | r in rules && StartsWith(r.name, prefix) && IsBannableValue(r.remoteIp) :: r.remoteIp
  }

  lemma {:induction false} ListingLinesHaveNoBreaks(f: ListingFormat, rules: seq<PrintedRule>)
    requires IsLayout(f)
    requires forall r :: r in rules ==> IsPrintedRule(r)
    ensures forall l :: l in ListingLines(f, rules) ==> '\n' !in l
  {
    if rules != [] {
      var init := rules[..|rules| - 1];
      assert forall r :: r in init ==> r in rules;
      ListingLinesHaveNoBreaks(f, init);
      var last := rules[|rules| - 1];
      assert IsPrintedRule(last);
      assert '\n' !in RuleNameLabel(f.labels) && '\n' !in RemoteIpLabel(f.labels);
      assert '\n' !in FieldLine(f, RuleNameLabel(f.labels), last.name);
      assert '\n' !in FieldLine(f, RemoteIpLabel(f.labels), last.remoteIp);
      assert forall l :: l in RuleLines(f, last) ==> '\n' !in l;
    }
  }

  lemma KindsOfOne(l: string)
    ensures Kinds([l]) == [KindOf(l)]
  {
    assert [l][..0] == [];
  }

  /** Lines without a label are passed over. */
  lemma {:induction false} KindsOfOtherFields(lines: seq<string>)
    requires forall l :: l in lines ==> IsOtherField(l)
    ensures Kinds(lines) == Others(|lines|)
  {
    if lines != [] {
      var n := |lines| - 1;
      assert forall l :: l in lines[..n] ==> l in lines;
      KindsOfOtherFields(lines[..n]);
      assert lines[n] in lines;
    }
  }

  /** The parser sees the block of a rule as its name, its address and lines it
      passes over. */
  lemma KindsOfRule(f: ListingFormat, r: PrintedRule)
    requires IsLayout(f) && IsPrintedRule(r)
    ensures Kinds(RuleLines(f, r)) == BlockKinds(r)
  {
    var l0 := FieldLine(f, RuleNameLabel(f.labels), r.name);
    var l1 := FieldLine(f, RemoteIpLabel(f.labels), r.remoteIp);
    KindsAppend([l0] + r.fieldsBefore + [l1], r.fieldsAfter);
    KindsAppend([l0] + r.fieldsBefore, [l1]);
    KindsAppend([l0], r.fieldsBefore);
    KindsOfOne(l0);
    KindsOfOne(l1);
    RuleNameLineRoundTrip(f, r.name);
    RemoteIpLineRoundTrip(f, r.remoteIp);
    KindsOfOtherFields(r.fieldsBefore);
    KindsOfOtherFields(r.fieldsAfter);
  }

  lemma {:induction false} KindsOfListing(f: ListingFormat, rules: seq<PrintedRule>)
    requires IsLayout(f)
    requires forall r :: r in rules ==> IsPrintedRule(r)
    ensures Kinds(ListingLines(f, rules)) == ListingKinds(rules)
  {
    if rules != [] {
      var init := rules[..|rules| - 1];
      var last := rules[|rules| - 1];
      assert forall r :: r in init ==> r in rules;
      KindsOfListing(f, init);
      KindsAppend(ListingLines(f, init), RuleLines(f, last));
      KindsOfRule(f, last);
    }
  }

  /** Lines the parser passes over leave its state as it was. */
  lemma {:induction false} ScanOthers(prefix: string, kinds: seq<LineKind>, n: nat)
    ensures Scan(prefix, kinds + Others(n)) == Scan(prefix, kinds)
  {
    if n == 0 {
      assert kinds + Others(n) == kinds;
    } else {
      assert (kinds + Others(n))[..|kinds| + n - 1] == kinds + Others(n - 1);
      ScanOthers(prefix, kinds, n - 1);
    }
  }

  /** The block of a rule adds its address exactly when the rule is managed and the
      address is neither empty nor "Any". */
  lemma ScanBlock(prefix: string, kinds: seq<LineKind>, r: PrintedRule)
    ensures Scan(prefix, kinds + BlockKinds(r)).found ==
            Scan(prefix, kinds).found
              + if StartsWith(r.name, prefix) && IsBannableValue(r.remoteIp) then {r.remoteIp} else {}
  {
    var named := kinds + [RuleNameLine(r.name)];
    assert named[..|kinds|] == kinds;
    ScanOthers(prefix, named, |r.fieldsBefore|);
    var addressed := named + Others(|r.fieldsBefore|) + [RemoteIpLine(r.remoteIp)];
    assert addressed[..|addressed| - 1] == named + Others(|r.fieldsBefore|);
    ScanOthers(prefix, addressed, |r.fieldsAfter|);
    assert kinds + BlockKinds(r) == addressed + Others(|r.fieldsAfter|);
  }

  /** The managed addresses of a rule list are those of all but its last rule, plus
      the last rule's when it is managed. */
  lemma ManagedAddressesOfLast(prefix: string, rules: seq<PrintedRule>)
    requires rules != []
    ensures var last := rules[|rules| - 1];
            ManagedAddresses(prefix, rules) ==
              ManagedAddresses(prefix, rules[..|rules| - 1])
                + if StartsWith(last.name, prefix) && IsBannableValue(last.remoteIp) then {last.remoteIp} else {}
  {
    assert rules == rules[..|rules| - 1] + [rules[|rules| - 1]];
  }

  lemma ListingKindsOfLast(kinds: seq<LineKind>, rules: seq<PrintedRule>)
    requires rules != []
    ensures kinds + ListingKinds(rules) == kinds + ListingKinds(rules[..|rules| - 1]) + BlockKinds(rules[|rules| - 1])
  {
    var a := ListingKinds(rules[..|rules| - 1]);
    var b := BlockKinds(rules[|rules| - 1]);
    assert ListingKinds(rules) == a + b;
    assert kinds + (a + b) == kinds + a + b;
  }

  /** Scanning the blocks of a rule list after any lines adds exactly the managed
      rules' addresses. */
  lemma {:induction false} ScanListingKinds(prefix: string, kinds: seq<LineKind>, rules: seq<PrintedRule>)
    ensures Scan(prefix, kinds + ListingKinds(rules)).found == Scan(prefix, kinds).found + ManagedAddresses(prefix, rules)
  {
    if rules == [] {
      assert kinds + ListingKinds(rules) == kinds;
      assert ManagedAddresses(prefix, rules) == {};
    } else {
      var init := rules[..|rules| - 1];
      var before := kinds + ListingKinds(init);
      ScanListingKinds(prefix, kinds, init);
      ListingKindsOfLast(kinds, rules);
      ScanBlock(prefix, before, rules[|rules| - 1]);
      ManagedAddressesOfLast(prefix, rules);
    }
  }

  /** Reconciliation from a listing: for a listing of any rules, in either label set,
      with any padding and line ending, and with any unlabelled lines in front and
      inside the blocks, the parser recovers exactly the remote addresses of the
      rules whose names carry the prefix (and whose address is neither empty nor
      "Any"); rules without the prefix contribute nothing. */
  lemma ReconcileListing(prefix: string, f: ListingFormat, header: seq<string>, rules: seq<PrintedRule>)
    requires IsLayout(f)
    requires forall l :: l in header ==> IsOtherField(l)
    requires forall r :: r in rules ==> IsPrintedRule(r)
    ensures ManagedIps(prefix, Join(header + ListingLines(f, rules), '\n')) == ManagedAddresses(prefix, rules)
  {
    var lines := header + ListingLines(f, rules);
    ListingHasNoBreaks(f, header, rules);
    ManagedIpsOfJoin(prefix, lines);
    KindsAppend(header, ListingLines(f, rules));
    KindsOfOtherFields(header);
    KindsOfListing(f, rules);
    ScanOthers(prefix, [], |header|);
    assert [] + Others(|header|) == Others(|header|);
    ScanListingKinds(prefix, Others(|header|), rules);
  }

  /** No line of a listing holds a line break. */
  lemma ListingHasNoBreaks(f: ListingFormat, header: seq<string>, rules: seq<PrintedRule>)
    requires IsLayout(f)
    requires forall l :: l in header ==> IsOtherField(l)
    requires forall r :: r in rules ==> IsPrintedRule(r)
    ensures forall i :: 0 <= i < |header + ListingLines(f, rules)| ==> '\n' !in (header + ListingLines(f, rules))[i]
  {
    var body := ListingLines(f, rules);
    var lines := header + body;
    ListingLinesHaveNoBreaks(f, rules);
    forall i | 0 <= i < |lines|
      ensures '\n' !in lines[i]
    {
      if i < |header| {
        assert lines[i] == header[i] && header[i] in header;
      } else {
        assert lines[i] == body[i - |header|] && body[i - |header|] in body;
      }
    }
  }

  /** The reload of the text that joins some break-free lines is the scan of those
      lines. */
  lemma ManagedIpsOfJoin(prefix: string, lines: seq<string>)
    requires forall i :: 0 <= i < |lines| ==> '\n' !in lines[i]
    ensures ManagedIps(prefix, Join(lines, '\n')) == Scan(prefix, Kinds(lines)).found
  {
    if lines != [] {
      if Join(lines, '\n') == [] {
        assert lines == [[]];
        KindsOfOne([]);
      } else {
        SplitJoin(lines, '\n');
      }
    }
  }

  /** Reading a listing never loses an announced address and never invents one. */
  lemma ManagedIpsAreAnnounced(prefix: string, output: string, ip: string)
    ensures ip in ManagedIps(prefix, output) <==> output != [] && Announces(prefix, Kinds(Split(output, '\n')), ip)
  {
    if output != [] {
      ScanFound(prefix, Kinds(Split(output, '\n')), ip);
    }
  }
}

