/** Routing decisions: rule lines are compiled once, sorted into three lists, and asked before the embedded tables. */
module Rules {
  import opened Bytes
  import opened JsInt
  import opened Strings
  import Cidr
  import Suffixes

  datatype Action = Direct | Proxy | Reject

  datatype Rule =
    | Domain(name: string, action: Action)
    | Suffix(name: string, action: Action)
    | Keyword(word: string, action: Action)
    | Match(action: Action)
    | Ip4(base: u32, prefix: int, action: Action)
    | Ip6(groups: Cidr.Groups, prefix: int, action: Action)

  /** What a connection asks for: a host name or an address literal. */
  datatype Target = Host(host: string) | Address4(ip: u32) | Address6(groups: Cidr.Groups)

  /** The readers of numbers and address literals; `None` where they answer "not one". */
  datatype Parsers = Parsers(integer: string -> Option<int>, ipv4: string -> Option<u32>, ipv6: string -> Option<Cidr.Groups>)

  datatype Tables = Tables(suffixes: set<string>, cidrs4: seq<Cidr.Row4>, cidrs6: seq<Cidr.Row6>)

  // ---- compiling a line ---------------------------------------------------------------

  function TrimAll(parts: seq<string>): (r: seq<string>)
    ensures |r| == |parts|
  {
    seq(|parts|, i requires 0 <= i < |parts| => Trim(parts[i]))
  }

  function ActionOf(target: string): Option<Action> {
    if target == "DIRECT" then Some(Direct)
    else if target == "PROXY" then Some(Proxy)
    else if target == "REJECT" || target == "REJECT-DROP" then Some(Reject)
    else None
  }

  /** The text before the slash of a network; without a slash `slice(0, -1)` cuts the last character. */
  function BasePart(param: string): string {
    var slash := IndexOf(param, '/', 0);
    if slash != -1 then param[..slash] else if param == "" then "" else param[..|param| - 1]
  }

  function PrefixPart(param: string): string {
    param[IndexOf(param, '/', 0) + 1..]
  }

  function CompileKind(kind: string, param: string, action: Action, p: Parsers): Option<Rule> {
    if kind == "DOMAIN" then Some(Domain(Lower(param), action))
    else if kind == "DOMAIN-SUFFIX" then Some(Suffix(Lower(param), action))
    else if kind == "DOMAIN-KEYWORD" then Some(Keyword(Lower(param), action))
    else if kind == "IP-CIDR" then
      match (p.ipv4(BasePart(param)), p.integer(PrefixPart(param)))
      case (Some(base), Some(prefix)) => Some(Ip4(base, prefix, action))
      case _ => None
    else if kind == "IP-CIDR6" then
      match (p.ipv6(BasePart(param)), p.integer(PrefixPart(param)))
      case (Some(groups), Some(prefix)) => Some(Ip6(groups, prefix, action))
      case _ => None
    else if kind == "MATCH" then Some(Match(action))
    else None
  }

  function Compile(line: string, p: Parsers): Option<Rule> {
    var trimmed := Trim(line);
    if trimmed == "" || StartsWith(trimmed, "#") || StartsWith(trimmed, "//") then None
    else
      var parts := TrimAll(Split(trimmed, ','));
      var rest := parts[..|parts| - 1];
      match ActionOf(Upper(parts[|parts| - 1]))
      case None => None
      case Some(action) =>
        if rest == [] then CompileKind("", "", action, p)
        else CompileKind(Upper(rest[0]), Join(rest[1..], ','), action, p)
  }

  // ---- the first reply to a list ----------------------------------------------------------

  function FirstReply(lines: seq<string>, ask: string -> Option<Action>): Option<Action>
    decreases |lines|
  {
    if lines == [] then None else if ask(lines[0]).Some? then ask(lines[0]) else FirstReply(lines[1..], ask)
  }

  predicate FirstAt(lines: seq<string>, ask: string -> Option<Action>, a: Action, i: nat) {
    i < |lines| && ask(lines[i]) == Some(a) && forall j :: 0 <= j < i ==> ask(lines[j]) == None
  }

  lemma {:induction false} FirstAtReplies(lines: seq<string>, ask: string -> Option<Action>, a: Action, i: nat)
    requires FirstAt(lines, ask, a, i)
    ensures FirstReply(lines, ask) == Some(a)
    decreases |lines|
  {
    if i > 0 {
      assert forall j :: 0 <= j < i ==> lines[1..][j] == lines[j + 1];
      FirstAtReplies(lines[1..], ask, a, i - 1);
    }
  }

  lemma {:induction false} ReplyIsSomewhere(lines: seq<string>, ask: string -> Option<Action>, a: Action) returns (i: nat)
    requires FirstReply(lines, ask) == Some(a)
    ensures FirstAt(lines, ask, a, i)
    decreases |lines|
  {
    if ask(lines[0]).Some? {
      i := 0;
    } else {
      var k := ReplyIsSomewhere(lines[1..], ask, a);
      assert forall j :: 0 < j <= k + 1 ==> lines[j] == lines[1..][j - 1];
      i := k + 1;
    }
  }

  lemma {:induction false} FirstReplyAppend(a: seq<string>, b: seq<string>, ask: string -> Option<Action>)
    ensures FirstReply(a + b, ask) == if FirstReply(a, ask).Some? then FirstReply(a, ask) else FirstReply(b, ask)
    decreases |a|
  {
    if a == [] {
      assert a + b == b;
    } else {
      assert (a + b)[0] == a[0] && (a + b)[1..] == a[1..] + b;
      FirstReplyAppend(a[1..], b, ask);
    }
  }

  lemma OneReply(line: string, ask: string -> Option<Action>)
    ensures FirstReply([line], ask) == ask(line)
  {
    assert [line][1..] == [];
  }

  lemma NoReply(before: seq<string>, line: string, after: seq<string>, ask: string -> Option<Action>)
    requires ask(line) == None
    ensures FirstReply(before + [line] + after, ask) == FirstReply(before + after, ask)
  {
    FirstReplyAppend(before + [line], after, ask);
    FirstReplyAppend(before, [line], ask);
    FirstReplyAppend(before, after, ask);
    OneReply(line, ask);
  }

  // ---- what a decision should be --------------------------------------------------------

  /** A rule speaks about a target of its own kind only; `MATCH` is a host rule. */
  predicate Applies(r: Rule, t: Target) {
    match t
    case Host(host) =>
      (match r
       case Domain(name, _) => host == name
       case Suffix(name, _) => Suffixes.Covered(host, name)
       case Keyword(word, _) => Contains(host, word)
       case Match(_) => true
       case Ip4(_, _, _) => false
       case Ip6(_, _, _) => false)
    case Address4(ip) => r.Ip4? && Cidr.SameTop(ip, r.base, 32, Cidr.Effective(r.prefix))
    case Address6(g) => r.Ip6? && Cidr.SameTop(Cidr.Address(g), Cidr.Address(r.groups), 128, Cidr.Clamp(r.prefix))
  }

  predicate Excluded(line: string, excludes: seq<string>) {
    exists i :: 0 <= i < |excludes| && Contains(line, excludes[i])
  }

  /** The line is a rule that answers for the target. */
  predicate Speaks(line: string, excludes: seq<string>, t: Target, p: Parsers) {
    !Excluded(line, excludes) && Compile(line, p).Some? && Applies(Compile(line, p).value, t)
  }

  function Reply(line: string, excludes: seq<string>, t: Target, p: Parsers): Option<Action> {
    if Speaks(line, excludes, t, p) then Some(Compile(line, p).value.action) else None
  }

  function Asking(excludes: seq<string>, t: Target, p: Parsers): string -> Option<Action> {
    (line: string) => Reply(line, excludes, t, p)
  }

  /** One scan over the lines in their order: the first that speaks decides. */
  function Scan(lines: seq<string>, excludes: seq<string>, t: Target, p: Parsers): Option<Action> {
    FirstReply(lines, Asking(excludes, t, p))
  }

  predicate Embedded(t: Target, tables: Tables) {
    match t
    case Host(host) => EndsWith(host, ".cn") || Suffixes.InTable(tables.suffixes, host)
    case Address4(ip) => Cidr.FoundEarly(ip, tables.cidrs4)
    case Address6(g) => Cidr.FoundEarly6(g, tables.cidrs6)
  }

  function OrElse<T>(a: Option<T>, b: T): T {
    if a.Some? then a.value else b
  }

  /** User lines first, then the subscription's that are not excluded, then the embedded tables, then the proxy. */
  function Decision(extra: seq<string>, excludes: seq<string>, subscription: seq<string>, t: Target, p: Parsers, tables: Tables): Action {
    match Scan(extra, [], t, p)
    case Some(a) => a
    case None => OrElse(Scan(subscription, excludes, t, p), if Embedded(t, tables) then Direct else Proxy)
  }

  /** The first line that speaks is number `i`, and it answers `a`. */
  predicate FirstSpeaker(lines: seq<string>, excludes: seq<string>, t: Target, p: Parsers, a: Action, i: nat) {
    i < |lines| && Speaks(lines[i], excludes, t, p) && Compile(lines[i], p).value.action == a
    && forall j :: 0 <= j < i ==> !Speaks(lines[j], excludes, t, p)
  }

  /** A scan answers with the first line that speaks, and only then. */
  lemma ScanIff(lines: seq<string>, excludes: seq<string>, t: Target, p: Parsers, a: Action)
    ensures Scan(lines, excludes, t, p) == Some(a) <==> exists i: nat :: FirstSpeaker(lines, excludes, t, p, a, i)
  {
    var ask := Asking(excludes, t, p);
    if i: nat :| FirstSpeaker(lines, excludes, t, p, a, i) {
      FirstAtReplies(lines, ask, a, i);
    } else if FirstReply(lines, ask) == Some(a) {
      var i := ReplyIsSomewhere(lines, ask, a);
      assert FirstSpeaker(lines, excludes, t, p, a, i);
    }
  }

  /** The line is no rule, or a rule about another kind of target. */
  predicate Foreign(line: string, t: Target, p: Parsers) {
    Compile(line, p).None? || KindOfRule(Compile(line, p).value) != KindOf(t)
  }

  /** A foreign line can be taken out of the user's lines anywhere without changing a decision; so a `MATCH` line says
      nothing about address literals. */
  lemma ForeignUserLine(before: seq<string>, line: string, after: seq<string>, excludes: seq<string>, subscription: seq<string>,
                        t: Target, p: Parsers, tables: Tables)
    requires Foreign(line, t, p)
    ensures Decision(before + [line] + after, excludes, subscription, t, p, tables)
         == Decision(before + after, excludes, subscription, t, p, tables)
  {
    NoReply(before, line, after, Asking([], t, p));
  }

  /** A foreign or excluded line can be taken out of the subscription's lines anywhere. */
  lemma ForeignOrExcludedLine(extra: seq<string>, excludes: seq<string>, before: seq<string>, line: string, after: seq<string>,
                              t: Target, p: Parsers, tables: Tables)
    requires Foreign(line, t, p) || Excluded(line, excludes)
    ensures Decision(extra, excludes, before + [line] + after, t, p, tables)
         == Decision(extra, excludes, before + after, t, p, tables)
  {
    NoReply(before, line, after, Asking(excludes, t, p));
  }

  /** The user's lines come first: where one of them speaks, the subscription and the tables do not matter. */
  lemma UserLinesDecide(extra: seq<string>, t: Target, p: Parsers, i: nat)
    requires i < |extra| && Speaks(extra[i], [], t, p) && forall j :: 0 <= j < i ==> !Speaks(extra[j], [], t, p)
    ensures forall excludes: seq<string>, subscription: seq<string>, tables: Tables ::
              Decision(extra, excludes, subscription, t, p, tables) == Compile(extra[i], p).value.action
  {
    var a := Compile(extra[i], p).value.action;
    assert FirstSpeaker(extra, [], t, p, a, i);
    ScanIff(extra, [], t, p, a);
  }

  // ---- the three lists --------------------------------------------------------------------

  datatype Kind = HostKind | Kind4 | Kind6

  function KindOfRule(r: Rule): Kind {
    if r.Ip4? then Kind4 else if r.Ip6? then Kind6 else HostKind
  }

  function KindOf(t: Target): Kind {
    match t
    case Host(_) => HostKind
    case Address4(_) => Kind4
    case Address6(_) => Kind6
  }

  function OfKind(rules: seq<Rule>, k: Kind): seq<Rule>
    decreases |rules|
  {
    if rules == [] then []
    else
      var n := |rules| - 1;
      OfKind(rules[..n], k) + if KindOfRule(rules[n]) == k then [rules[n]] else []
  }

  function FirstMatch(rules: seq<Rule>, t: Target): Option<Action>
    decreases |rules|
  {
    if rules == [] then None
    else if Applies(rules[0], t) then Some(rules[0].action)
    else FirstMatch(rules[1..], t)
  }

  lemma {:induction false} FirstMatchAppend(a: seq<Rule>, b: seq<Rule>, t: Target)
    ensures FirstMatch(a + b, t) == if FirstMatch(a, t).Some? then FirstMatch(a, t) else FirstMatch(b, t)
    decreases |a|
  {
    if a == [] {
      assert a + b == b;
    } else {
      assert (a + b)[0] == a[0] && (a + b)[1..] == a[1..] + b;
      FirstMatchAppend(a[1..], b, t);
    }
  }

  lemma FirstMatchOne(r: Rule, t: Target)
    ensures FirstMatch([r], t) == if Applies(r, t) then Some(r.action) else None
  {
    assert [r][1..] == [];
  }

  /** Asking only the list of the target's kind is asking all rules in their common order. */
  lemma {:induction false} PartitionKeepsMeaning(rules: seq<Rule>, t: Target)
    ensures FirstMatch(OfKind(rules, KindOf(t)), t) == FirstMatch(rules, t)
    decreases |rules|
  {
    if rules != [] {
      var n := |rules| - 1;
      var front, last := rules[..n], rules[n];
      PartitionKeepsMeaning(front, t);
      assert rules == front + [last];
      FirstMatchAppend(front, [last], t);
      FirstMatchOne(last, t);
      var chosen := OfKind(front, KindOf(t));
      FirstMatchAppend(chosen, [last], t);
      assert chosen + [] == chosen;
    }
  }

  /** The rules of the lines that are kept, in order. */
  function CompileAll(lines: seq<string>, excludes: seq<string>, p: Parsers): seq<Rule>
    decreases |lines|
  {
    if lines == [] then []
    else
      var n := |lines| - 1;
      CompileAll(lines[..n], excludes, p) + CompileOne(lines[n], excludes, p)
  }

  function CompileOne(line: string, excludes: seq<string>, p: Parsers): seq<Rule> {
    if Excluded(line, excludes) || Compile(line, p).None? then [] else [Compile(line, p).value]
  }

  lemma CompileNext(sofar: seq<Rule>, lines: seq<string>, k: nat, excludes: seq<string>, p: Parsers)
    requires k < |lines|
    ensures sofar + CompileAll(lines[..k + 1], excludes, p)
         == sofar + CompileAll(lines[..k], excludes, p) + CompileOne(lines[k], excludes, p)
  {
    assert lines[..k + 1][..k] == lines[..k];
  }

  /** Compiling everything once and asking the rules is scanning the lines. */
  lemma {:induction false} CompiledScan(lines: seq<string>, excludes: seq<string>, t: Target, p: Parsers)
    ensures FirstMatch(CompileAll(lines, excludes, p), t) == Scan(lines, excludes, t, p)
    decreases |lines|
  {
    if lines != [] {
      var n := |lines| - 1;
      var front, last := lines[..n], lines[n];
      CompiledScan(front, excludes, t, p);
      CompiledOne(last, excludes, t, p);
      assert lines == front + [last];
      FirstReplyAppend(front, [last], Asking(excludes, t, p));
      FirstMatchAppend(CompileAll(front, excludes, p), CompileOne(last, excludes, p), t);
    }
  }

  lemma CompiledOne(line: string, excludes: seq<string>, t: Target, p: Parsers)
    ensures FirstMatch(CompileOne(line, excludes, p), t) == Scan([line], excludes, t, p)
  {
    OneReply(line, Asking(excludes, t, p));
    if CompileOne(line, excludes, p) != [] {
      FirstMatchOne(Compile(line, p).value, t);
    }
  }

  // ---- the engine ---------------------------------------------------------------------------

  class RuleEngine {
    var hostRules: seq<Rule>
    var ipRules: seq<Rule>
    var ip6Rules: seq<Rule>
    const parsers: Parsers
    const tables: Tables
    ghost const extra: seq<string>
    ghost const excludes: seq<string>
    ghost const subscription: seq<string>

    ghost predicate Valid()
      reads this
    {
      Holds(CompileAll(extra, [], parsers) + CompileAll(subscription, excludes, parsers))
    }

    /** The three lists are the parts of one list of rules. */
    ghost predicate Holds(rules: seq<Rule>)
      reads this
    {
      hostRules == OfKind(rules, HostKind) && ipRules == OfKind(rules, Kind4) && ip6Rules == OfKind(rules, Kind6)
    }

    constructor (extraRules: seq<string>, excludeRules: seq<string>, subscriptionRules: seq<string>, parsers: Parsers, tables: Tables)
      ensures Valid()
      ensures extra == extraRules && excludes == excludeRules && subscription == subscriptionRules
      ensures this.parsers == parsers && this.tables == tables
    {
      this.parsers, this.tables := parsers, tables;
      extra, excludes, subscription := extraRules, excludeRules, subscriptionRules;
      hostRules, ipRules, ip6Rules := [], [], [];
      new;
      AddAll(extraRules, [], []);
      assert [] + CompileAll(extraRules, [], parsers) == CompileAll(extraRules, [], parsers);
      AddAll(subscriptionRules, excludeRules, CompileAll(extraRules, [], parsers));
    }

    method AddAll(lines: seq<string>, excluded: seq<string>, ghost sofar: seq<Rule>)
      requires Holds(sofar)
      modifies this`hostRules, this`ipRules, this`ip6Rules
      ensures Holds(sofar + CompileAll(lines, excluded, parsers))
    {
      assert sofar + [] == sofar;
      for k := 0 to |lines|
        invariant Holds(sofar + CompileAll(lines[..k], excluded, parsers))
      {
        ghost var rules := sofar + CompileAll(lines[..k], excluded, parsers);
        CompileNext(sofar, lines, k, excluded, parsers);
        assert rules + [] == rules;
        if !Excluded(lines[k], excluded) {
          match Compile(lines[k], parsers) {
            case None =>
            case Some(rule) => Add(rule, rules);
          }
        }
      }
      assert lines[..|lines|] == lines;
    }

    method Add(rule: Rule, ghost rules: seq<Rule>)
      requires Holds(rules)
      modifies this`hostRules, this`ipRules, this`ip6Rules
      ensures Holds(rules + [rule])
    {
      assert (rules + [rule])[..|rules|] == rules;
      if rule.Ip4? {
        ipRules := ipRules + [rule];
      } else if rule.Ip6? {
        ip6Rules := ip6Rules + [rule];
      } else {
        hostRules := hostRules + [rule];
      }
    }

    method MatchHost(host: string) returns (action: Option<Action>)
      ensures action == FirstMatch(hostRules, Host(host))
    {
      for k := 0 to |hostRules|
        invariant FirstMatch(hostRules[k..], Host(host)) == FirstMatch(hostRules, Host(host))
      {
        if Applies(hostRules[k], Host(host)) {
          return Some(hostRules[k].action);
        }
      }
      return None;
    }

    method MatchIp(ip: u32) returns (action: Option<Action>)
      ensures action == OrTable(FirstMatch(ipRules, Address4(ip)), Embedded(Address4(ip), tables))
    {
      for k := 0 to |ipRules|
        invariant FirstMatch(ipRules[k..], Address4(ip)) == FirstMatch(ipRules, Address4(ip))
      {
        var rule := ipRules[k];
        if rule.Ip4? {
          Cidr.MaskTestIff(ip, rule.base, rule.prefix);
          if Cidr.Matches4(ip, rule.base, rule.prefix) {
            return Some(rule.action);
          }
        }
      }
      var found := Cidr.InCnCidr4(tables.cidrs4, ip);
      return if found then Some(Direct) else None;
    }

    method MatchIp6(groups: Cidr.Groups) returns (action: Option<Action>)
      ensures action == OrTable(FirstMatch(ip6Rules, Address6(groups)), Embedded(Address6(groups), tables))
    {
      for k := 0 to |ip6Rules|
        invariant FirstMatch(ip6Rules[k..], Address6(groups)) == FirstMatch(ip6Rules, Address6(groups))
      {
        var rule := ip6Rules[k];
        if rule.Ip6? {
          var matched := Cidr.BitLoop(groups, rule.groups, rule.prefix);
          if matched {
            return Some(rule.action);
          }
        }
      }
      var found := Cidr.InCnCidr6(tables.cidrs6, groups);
      return if found then Some(Direct) else None;
    }

    /** The decision over three lists is the decision of one scan over all lines. */
    method Decide(rawHost: string) returns (action: Action)
      requires Valid()
      ensures action == Decision(extra, excludes, subscription, Classify(rawHost, parsers), parsers, tables)
    {
      ghost var target := Classify(rawHost, parsers);
      ListsDecide(extra, excludes, subscription, target, parsers);
      var host := Trim(Lower(rawHost));
      var ip4 := parsers.ipv4(host);
      if ip4.Some? {
        var found := MatchIp(ip4.value);
        return OrElse(found, Proxy);
      }
      var ip6 := parsers.ipv6(host);
      if ip6.Some? {
        var found := MatchIp6(ip6.value);
        return OrElse(found, Proxy);
      }
      var found := MatchHost(host);
      if found.Some? {
        return found.value;
      }
      var direct := Suffixes.Lookup(tables.suffixes, host);
      return if direct then Direct else Proxy;
    }
  }

  function OrTable(a: Option<Action>, embedded: bool): Option<Action> {
    if a.Some? then a else if embedded then Some(Direct) else None
  }

  function Classify(rawHost: string, p: Parsers): Target {
    var host := Trim(Lower(rawHost));
    if p.ipv4(host).Some? then Address4(p.ipv4(host).value)
    else if p.ipv6(host).Some? then Address6(p.ipv6(host).value)
    else Host(host)
  }

  /** The list of the target's kind answers as the scan over both sets of lines does. */
  lemma ListsDecide(extra: seq<string>, excludes: seq<string>, subscription: seq<string>, t: Target, p: Parsers)
    ensures FirstMatch(OfKind(CompileAll(extra, [], p) + CompileAll(subscription, excludes, p), KindOf(t)), t)
         == if Scan(extra, [], t, p).Some? then Scan(extra, [], t, p) else Scan(subscription, excludes, t, p)
  {
    var a, b := CompileAll(extra, [], p), CompileAll(subscription, excludes, p);
    PartitionKeepsMeaning(a + b, t);
    FirstMatchAppend(a, b, t);
    CompiledScan(extra, [], t, p);
    CompiledScan(subscription, excludes, t, p);
  }
}
