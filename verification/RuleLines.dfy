/** What a rule line says, read off its text: which hosts and addresses it speaks about, and what it decides. */
module RuleLines {
  import opened Bits
  import opened Bytes
  import opened JsInt
  import opened Strings
  import Cidr
  import opened Rules
  import Suffixes

  /** A line of three parts; the middle one may hold commas. */
  function Line(kind: string, param: string, target: string): string {
    kind + "," + param + "," + target
  }

  /** No white space around any part between commas. */
  predicate Tidy(param: string) {
    forall i :: 0 <= i < |Split(param, ',')| ==> Trim(Split(param, ',')[i]) == Split(param, ',')[i]
  }

  predicate Word(s: string) {
    s != "" && ',' !in s && !IsSpace(s[0]) && !IsSpace(s[|s| - 1])
  }

  predicate IsKind(kind: string) {
    || kind == "DOMAIN" || kind == "DOMAIN-SUFFIX" || kind == "DOMAIN-KEYWORD"
    || kind == "IP-CIDR" || kind == "IP-CIDR6" || kind == "MATCH"
  }

  /** The four actions a line may name. */
  predicate Says(target: string, a: Action) {
    match a
    case Direct => target == "DIRECT"
    case Proxy => target == "PROXY"
    case Reject => target == "REJECT" || target == "REJECT-DROP"
  }

  lemma JoinThree(kind: string, parts: seq<string>, target: string)
    requires parts != []
    ensures Join([kind] + parts + [target], ',') == Line(kind, Join(parts, ','), target)
  {
    var all := [kind] + parts + [target];
    assert all[1..] == parts + [target];
    JoinSnoc(parts, target);
    assert kind + "," + (Join(parts, ',') + "," + target) == Line(kind, Join(parts, ','), target);
  }

  lemma {:induction false} JoinSnoc(parts: seq<string>, target: string)
    requires parts != []
    ensures Join(parts + [target], ',') == Join(parts, ',') + "," + target
    decreases |parts|
  {
    var all := parts + [target];
    if |parts| == 1 {
      assert all == [parts[0], target] && all[1..] == [target];
    } else {
      assert all[1..] == parts[1..] + [target];
      JoinSnoc(parts[1..], target);
      assert parts[0] + "," + (Join(parts[1..], ',') + "," + target) == parts[0] + "," + Join(parts[1..], ',') + "," + target;
    }
  }

  lemma {:induction false} SplitHasNoSeparator(s: string, c: char)
    ensures forall i :: 0 <= i < |Split(s, c)| ==> c !in Split(s, c)[i]
    decreases |s|
  {
    var i := IndexOf(s, c, 0);
    if i == -1 {
      assert Split(s, c) == [s];
    } else {
      SplitHasNoSeparator(s[i + 1..], c);
      var front, rest := s[..i], Split(s[i + 1..], c);
      assert Split(s, c) == [front] + rest && c !in front;
    }
  }

  /** A line splits into its kind, the parts of its parameter, and its target. */
  lemma LineSplits(kind: string, param: string, target: string)
    requires Word(kind) && Word(target)
    ensures Split(Line(kind, param, target), ',') == [kind] + Split(param, ',') + [target]
  {
    var parts := [kind] + Split(param, ',') + [target];
    JoinSplit(param, ',');
    JoinThree(kind, Split(param, ','), target);
    SplitHasNoSeparator(param, ',');
    SplitJoin(parts, ',');
  }

  lemma LineIsTrimmed(kind: string, param: string, target: string)
    requires Word(kind) && Word(target)
    ensures Trim(Line(kind, param, target)) == Line(kind, param, target)
  {
    var line := Line(kind, param, target);
    assert line[0] == kind[0] && line[|line| - 1] == target[|target| - 1];
  }

  lemma WordIsTrimmed(s: string)
    requires Word(s)
    ensures Trim(s) == s
  {
  }

  lemma KindIsWord(kind: string)
    requires IsKind(kind)
    ensures Word(kind) && Upper(kind) == kind && kind[0] != '#' && kind[0] != '/'
  {
  }

  lemma TargetIsWord(target: string, a: Action)
    requires Says(target, a)
    ensures Word(target) && Upper(target) == target && ActionOf(target) == Some(a)
  {
  }

  /** A well-formed line compiles to the rule of its kind. */
  lemma LineCompiles(kind: string, param: string, target: string, a: Action, p: Parsers)
    requires IsKind(kind) && Tidy(param) && Says(target, a)
    ensures Compile(Line(kind, param, target), p) == CompileKind(kind, param, a, p)
  {
    KindIsWord(kind);
    TargetIsWord(target, a);
    var line, parts := Line(kind, param, target), [kind] + Split(param, ',') + [target];
    LineIsTrimmed(kind, param, target);
    LineSplits(kind, param, target);
    WordIsTrimmed(kind);
    WordIsTrimmed(target);
    assert TrimAll(parts) == parts;
    var rest := parts[..|parts| - 1];
    assert rest == [kind] + Split(param, ',') && rest[1..] == Split(param, ',');
    JoinSplit(param, ',');
    assert line[0] == kind[0];
    RuleOf(line, parts, kind, param, target, a, p);
  }

  lemma RuleOf(line: string, parts: seq<string>, kind: string, param: string, target: string, a: Action, p: Parsers)
    requires Trim(line) == line && line != "" && line[0] != '#' && line[0] != '/'
    requires TrimAll(Split(line, ',')) == parts && |parts| >= 2 && parts[0] == kind && parts[|parts| - 1] == target
    requires Join(parts[..|parts| - 1][1..], ',') == param
    requires Upper(kind) == kind && ActionOf(Upper(target)) == Some(a)
    ensures Compile(line, p) == CompileKind(kind, param, a, p)
  {
  }

  // ---- host lines --------------------------------------------------------------------------

  /** What a line of each kind says about a host name. */
  predicate Covers(kind: string, param: string, host: string) {
    var name := Lower(param);
    || (kind == "DOMAIN" && host == name)
    || (kind == "DOMAIN-SUFFIX" && (host == name || EndsWith(host, "." + name)))
    || (kind == "DOMAIN-KEYWORD" && Contains(host, name))
    || kind == "MATCH"
  }

  /** A line speaks about exactly the host names it covers, and answers with the action it names. */
  lemma HostLineIff(kind: string, param: string, target: string, a: Action, host: string, p: Parsers)
    requires IsKind(kind) && Tidy(param) && Says(target, a)
    ensures Reply(Line(kind, param, target), [], Host(host), p) == if Covers(kind, param, host) then Some(a) else None
  {
    LineCompiles(kind, param, target, a, p);
    HostRuleIff(Line(kind, param, target), kind, param, a, host, p);
  }

  lemma HostRuleIff(line: string, kind: string, param: string, a: Action, host: string, p: Parsers)
    requires IsKind(kind) && Compile(line, p) == CompileKind(kind, param, a, p)
    ensures Reply(line, [], Host(host), p) == if Covers(kind, param, host) then Some(a) else None
  {
  }

  /** So a user line decides for the names it covers, whatever the lines behind it, the subscription and the tables say. */
  lemma HostLineDecides(kind: string, param: string, target: string, a: Action, host: string, p: Parsers,
                        more: seq<string>, excludes: seq<string>, subscription: seq<string>, tables: Tables)
    requires IsKind(kind) && Tidy(param) && Says(target, a) && Covers(kind, param, host)
    ensures Decision([Line(kind, param, target)] + more, excludes, subscription, Host(host), p, tables) == a
  {
    HostLineIff(kind, param, target, a, host, p);
    FirstLineDecides(Line(kind, param, target), more, excludes, subscription, Host(host), p, tables, a);
  }

  /** A first user line that speaks decides, whatever comes behind it. */
  lemma FirstLineDecides(line: string, more: seq<string>, excludes: seq<string>, subscription: seq<string>,
                         t: Target, p: Parsers, tables: Tables, a: Action)
    requires Reply(line, [], t, p) == Some(a)
    ensures Decision([line] + more, excludes, subscription, t, p, tables) == a
  {
    FirstReplyAppend([line], more, Asking([], t, p));
    OneReply(line, Asking([], t, p));
  }

  // ---- address lines -------------------------------------------------------------------------

  /** The text around the slash; without one, the text but for its last character, and the whole text. */
  lemma SlashSplits(param: string, base: string, prefix: string)
    requires if '/' in param then param == base + "/" + prefix && '/' !in base
             else prefix == param && base == if param == "" then "" else param[..|param| - 1]
    ensures BasePart(param) == base && PrefixPart(param) == prefix
  {
    if '/' in param {
      assert param[|base|] == '/' && param[..|base|] == base && param[|base| + 1..] == prefix;
      IndexOfFirst(param, '/', |base|);
    } else {
      assert param[0..] == param;
    }
  }

  /** What the rule of a line answers for a target. */
  lemma RuleReplies(line: string, r: Option<Rule>, t: Target, p: Parsers)
    requires Compile(line, p) == r
    ensures Reply(line, [], t, p) == if r.Some? && Applies(r.value, t) then Some(r.value.action) else None
  {
  }

  /** The addresses with the leading bits of the network. */
  predicate InNet4(ip: u32, base: u32, n: int)
    requires 0 <= n <= 32
  {
    ip / Pow2(32 - n) == base / Pow2(32 - n)
  }

  predicate InNet6(g: Cidr.Groups, base: Cidr.Groups, n: int)
    requires 0 <= n <= 128
  {
    Cidr.Address(g) / Pow2(128 - n) == Cidr.Address(base) / Pow2(128 - n)
  }

  /** An IPv4 line is a rule if both halves of its parameter can be read, and then speaks about exactly the addresses with
      its leading bits. */
  lemma Ip4LineIff(base: string, prefix: string, target: string, a: Action, ip: u32, p: Parsers)
    requires '/' !in base && Tidy(base + "/" + prefix) && Says(target, a)
    ensures var line := Line("IP-CIDR", base + "/" + prefix, target);
            Answers4(Compile(line, p).Some?, Reply(line, [], Address4(ip), p), p.ipv4(base), p.integer(prefix), a, ip)
  {
    var param := base + "/" + prefix;
    LineCompiles("IP-CIDR", param, target, a, p);
    SlashSplits(param, base, prefix);
    Reads4(Line("IP-CIDR", param, target), p.ipv4(base), p.integer(prefix), a, ip, p);
  }

  predicate Answers4(isRule: bool, reply: Option<Action>, b: Option<u32>, n: Option<int>, a: Action, ip: u32) {
    && (isRule <==> b.Some? && n.Some?)
    && (b.Some? && n.Some? && 0 <= n.value <= 32 ==> reply == if InNet4(ip, b.value, n.value) then Some(a) else None)
  }

  lemma Reads4(line: string, b: Option<u32>, n: Option<int>, a: Action, ip: u32, p: Parsers)
    requires Compile(line, p) == if b.Some? && n.Some? then Some(Ip4(b.value, n.value, a)) else None
    ensures Answers4(Compile(line, p).Some?, Reply(line, [], Address4(ip), p), b, n, a, ip)
  {
    RuleReplies(line, Compile(line, p), Address4(ip), p);
    RuleAnswers4(Compile(line, p), Reply(line, [], Address4(ip), p), b, n, a, ip);
  }

  lemma RuleAnswers4(r: Option<Rule>, reply: Option<Action>, b: Option<u32>, n: Option<int>, a: Action, ip: u32)
    requires r == if b.Some? && n.Some? then Some(Ip4(b.value, n.value, a)) else None
    requires reply == if r.Some? && Applies(r.value, Address4(ip)) then Some(r.value.action) else None
    ensures Answers4(r.Some?, reply, b, n, a, ip)
  {
  }
  /** The same for IPv6 lines. */
  lemma Ip6LineIff(base: string, prefix: string, target: string, a: Action, g: Cidr.Groups, p: Parsers)
    requires '/' !in base && Tidy(base + "/" + prefix) && Says(target, a)
    ensures var line := Line("IP-CIDR6", base + "/" + prefix, target);
            Answers6(Compile(line, p).Some?, Reply(line, [], Address6(g), p), p.ipv6(base), p.integer(prefix), a, g)
  {
    var param := base + "/" + prefix;
    LineCompiles("IP-CIDR6", param, target, a, p);
    SlashSplits(param, base, prefix);
    Reads6(Line("IP-CIDR6", param, target), p.ipv6(base), p.integer(prefix), a, g, p);
  }

  predicate Answers6(isRule: bool, reply: Option<Action>, b: Option<Cidr.Groups>, n: Option<int>, a: Action, g: Cidr.Groups) {
    && (isRule <==> b.Some? && n.Some?)
    && (b.Some? && n.Some? && 0 <= n.value <= 128 ==> reply == if InNet6(g, b.value, n.value) then Some(a) else None)
  }

  lemma Reads6(line: string, b: Option<Cidr.Groups>, n: Option<int>, a: Action, g: Cidr.Groups, p: Parsers)
    requires Compile(line, p) == if b.Some? && n.Some? then Some(Ip6(b.value, n.value, a)) else None
    ensures Answers6(Compile(line, p).Some?, Reply(line, [], Address6(g), p), b, n, a, g)
  {
    RuleReplies(line, Compile(line, p), Address6(g), p);
    RuleAnswers6(Compile(line, p), Reply(line, [], Address6(g), p), b, n, a, g);
  }

  lemma RuleAnswers6(r: Option<Rule>, reply: Option<Action>, b: Option<Cidr.Groups>, n: Option<int>, a: Action, g: Cidr.Groups)
    requires r == if b.Some? && n.Some? then Some(Ip6(b.value, n.value, a)) else None
    requires reply == if r.Some? && Applies(r.value, Address6(g)) then Some(r.value.action) else None
    ensures Answers6(r.Some?, reply, b, n, a, g)
  {
  }
  /** A line of the subscription is left out exactly if it holds one of the texts to exclude somewhere. */
  lemma ExcludedIff(line: string, excludes: seq<string>, t: Target, p: Parsers)
    ensures Reply(line, excludes, t, p) == if exists e, i: nat :: e in excludes && HoldsAt(line, e, i) then None else Reply(line, [], t, p)
  {
    if e, i: nat :| e in excludes && HoldsAt(line, e, i) {
      var k :| 0 <= k < |excludes| && excludes[k] == e;
      assert StartsWith(line[i..], e);
      assert Contains(line, excludes[k]);
    } else if Excluded(line, excludes) {
      var k :| 0 <= k < |excludes| && Contains(line, excludes[k]);
      var i :| 0 <= i <= |line| && StartsWith(line[i..], excludes[k]);
      assert HoldsAt(line, excludes[k], i);
    }
  }

  predicate HoldsAt(line: string, e: string, i: nat) {
    i + |e| <= |line| && line[i..i + |e|] == e
  }

  // ---- what is no rule, and what no rule decides -----------------------------------------------

  /** Only lines of a known kind with a known action are rules; blank lines and comments are not. */
  lemma RuleIsKnown(line: string, p: Parsers)
    requires Compile(line, p).Some?
    ensures var parts := Split(Trim(line), ',');
            && |parts| > 1 && Trim(line)[0] != '#' && !StartsWith(line, "//")
            && Says(Upper(Trim(parts[|parts| - 1])), Compile(line, p).value.action)
            && IsKind(Upper(Trim(parts[0])))
  {
    var parts := Split(Trim(line), ',');
    var trimmed := TrimAll(parts);
    assert trimmed[0] == Trim(parts[0]) && trimmed[|parts| - 1] == Trim(parts[|parts| - 1]);
    NoComment(line, p);
    PartsAreKnown(Upper(trimmed[|parts| - 1]), if |parts| > 1 then Upper(trimmed[0]) else "",
                  if |parts| > 1 then Join(trimmed[..|parts| - 1][1..], ',') else "", Compile(line, p).value, p);
  }

  lemma NoComment(line: string, p: Parsers)
    requires Compile(line, p).Some?
    ensures Trim(line) != "" && Trim(line)[0] != '#' && !StartsWith(line, "//")
  {
    if StartsWith(line, "//") {
      TrimKeepsFront(line);
    }
  }

  lemma PartsAreKnown(target: string, kind: string, param: string, r: Rule, p: Parsers)
    requires ActionOf(target).Some? && CompileKind(kind, param, ActionOf(target).value, p) == Some(r)
    ensures Says(target, r.action) && IsKind(kind) && kind != ""
  {
  }

  lemma {:induction false} TrimKeepsFront(s: string)
    requires |s| >= 2 && !IsSpace(s[0]) && !IsSpace(s[1])
    ensures |Trim(s)| >= 2 && Trim(s)[..2] == s[..2]
    decreases |s|
  {
    if IsSpace(s[|s| - 1]) {
      TrimKeepsFront(s[..|s| - 1]);
    }
  }

  /** Where no user line speaks, the first line of the subscription that is not excluded and speaks decides. */
  lemma SubscriptionDecides(extra: seq<string>, excludes: seq<string>, subscription: seq<string>, i: nat, a: Action,
                            t: Target, p: Parsers, tables: Tables)
    requires forall i :: 0 <= i < |extra| ==> !Speaks(extra[i], [], t, p)
    requires i < |subscription| && Reply(subscription[i], excludes, t, p) == Some(a)
    requires forall j :: 0 <= j < i ==> Reply(subscription[j], excludes, t, p) == None
    ensures Decision(extra, excludes, subscription, t, p, tables) == a
  {
    NobodySpeaks(extra, [], t, p);
    FirstAtReplies(subscription, Asking(excludes, t, p), a, i);
  }

  /** Where no line speaks, the embedded tables decide: direct for what they hold, the proxy for all else. */
  lemma DefaultIff(extra: seq<string>, excludes: seq<string>, subscription: seq<string>, t: Target, p: Parsers, tables: Tables)
    requires forall i :: 0 <= i < |extra| ==> !Speaks(extra[i], [], t, p)
    requires forall i :: 0 <= i < |subscription| ==> !Speaks(subscription[i], excludes, t, p)
    ensures Decision(extra, excludes, subscription, t, p, tables) == if Embedded(t, tables) then Direct else Proxy
  {
    NobodySpeaks(extra, [], t, p);
    NobodySpeaks(subscription, excludes, t, p);
  }

  /** The tables hold a host name that ends in ".cn", is an entry, or has an entry behind a dot. */
  lemma EmbeddedHostIff(host: string, tables: Tables)
    ensures Embedded(Host(host), tables) <==>
              || (|host| >= 3 && host[|host| - 3] == '.' && host[|host| - 2] == 'c' && host[|host| - 1] == 'n')
              || (exists s :: s in tables.suffixes && HangsOn(host, s))
  {
    if |host| >= 3 {
      assert host[|host| - 3..] == [host[|host| - 3], host[|host| - 2], host[|host| - 1]];
    }
    forall s
      ensures HangsOn(host, s) <==> Suffixes.Covered(host, s)
    {
      if |host| > |s| {
        assert host[|host| - |s| - 1..] == [host[|host| - |s| - 1]] + host[|host| - |s|..];
        assert ("." + s)[1..] == s && host[|host| - |s| - 1..][1..] == host[|host| - |s|..];
      }
    }
  }

  predicate HangsOn(host: string, s: string) {
    host == s || (|host| > |s| && host[|host| - |s| - 1] == '.' && host[|host| - |s|..] == s)
  }

  lemma NobodySpeaks(lines: seq<string>, excludes: seq<string>, t: Target, p: Parsers)
    requires forall i :: 0 <= i < |lines| ==> !Speaks(lines[i], excludes, t, p)
    ensures Scan(lines, excludes, t, p) == None
  {
    if a :| Scan(lines, excludes, t, p) == Some(a) {
      ScanIff(lines, excludes, t, p, a);
    }
  }
}
