/** The domain table: how the build script condenses the upstream list, and how a host name is looked up in it. */
module Suffixes {
  import opened Bytes
  import opened Strings

  /** What an entry of the table stands for: itself and all names below it. */
  predicate Covered(host: string, s: string) {
    host == s || EndsWith(host, "." + s)
  }

  predicate CoveredBy(host: string, table: seq<string>) {
    exists i :: 0 <= i < |table| && Covered(host, table[i])
  }

  lemma CoveredTransitive(a: string, b: string, c: string)
    requires Covered(a, b) && Covered(b, c)
    ensures Covered(a, c)
  {
    if a != b && b != c {
      var t := "." + c;
      assert b[|b| - |t|..] == a[|a| - |b|..][|b| - |t|..] == a[|a| - |t|..];
    }
  }

  lemma CoveredIsLonger(a: string, b: string)
    requires Covered(a, b)
    ensures |a| > |b| || a == b
  {
  }

  // ---- pruning ------------------------------------------------------------------------

  predicate SortedByLength(s: seq<string>) {
    forall i, j :: 0 <= i < j < |s| ==> |s[i]| <= |s[j]|
  }

  /** No entry is covered by another one. */
  predicate Antichain(s: seq<string>) {
    forall i, j :: 0 <= i < |s| && 0 <= j < |s| && i != j ==> !Covered(s[i], s[j])
  }

  method Prune(sorted: seq<string>) returns (kept: seq<string>)
    requires SortedByLength(sorted)
    ensures forall s :: s in kept ==> s in sorted
    ensures forall s :: s in sorted ==> CoveredBy(s, kept)
    ensures Antichain(kept)
  {
    kept := [];
    for k := 0 to |sorted|
      invariant forall s :: s in kept ==> s in sorted[..k]
      invariant forall i :: 0 <= i < k ==> CoveredBy(sorted[i], kept)
      invariant Antichain(kept)
    {
      var suffix := sorted[k];
      var covered := false;
      for i := 0 to |kept|
        invariant covered <==> CoveredBy(suffix, kept[..i])
      {
        assert kept[..i + 1] == kept[..i] + [kept[i]];
        if covered {
          CoveredByMore(suffix, kept[..i], [kept[i]]);
        } else if Covered(suffix, kept[i]) {
          covered := true;
          assert kept[..i + 1][i] == kept[i];
        } else {
          NotCoveredByOneMore(suffix, kept[..i], kept[i]);
        }
      }
      assert kept[..|kept|] == kept;
      if !covered {
        KeepsAntichain(sorted, k, kept);
        forall i | 0 <= i < k
          ensures CoveredBy(sorted[i], kept + [suffix])
        {
          CoveredByMore(sorted[i], kept, [suffix]);
        }
        kept := kept + [suffix];
        assert kept[|kept| - 1] == suffix;
      }
    }
  }

  lemma CoveredByMore(host: string, a: seq<string>, b: seq<string>)
    requires CoveredBy(host, a)
    ensures CoveredBy(host, a + b)
  {
    var i :| 0 <= i < |a| && Covered(host, a[i]);
    assert (a + b)[i] == a[i];
  }

  lemma NotCoveredByOneMore(host: string, a: seq<string>, s: string)
    requires !CoveredBy(host, a) && !Covered(host, s)
    ensures !CoveredBy(host, a + [s])
  {
  }

  lemma KeepsAntichain(sorted: seq<string>, k: nat, kept: seq<string>)
    requires SortedByLength(sorted) && k < |sorted| && Antichain(kept)
    requires forall s :: s in kept ==> s in sorted[..k]
    requires !CoveredBy(sorted[k], kept)
    ensures Antichain(kept + [sorted[k]])
  {
    var next := kept + [sorted[k]];
    forall i, j | 0 <= i < |next| && 0 <= j < |next| && i != j
      ensures !Covered(next[i], next[j])
    {
      if i < |kept| && j == |kept| {
        assert kept[i] in kept;
        assert |kept[i]| <= |sorted[k]|;
        assert !Covered(sorted[k], kept[i]);
      }
    }
  }

  /** Pruning leaves exactly the entries that no other entry covers, whatever order entries of equal length had. */
  lemma PruneIsCanonical(all: seq<string>, kept: seq<string>, s: string)
    requires forall t :: t in kept ==> t in all
    requires forall t :: t in all ==> CoveredBy(t, kept)
    requires Antichain(kept)
    ensures s in kept <==> s in all && forall t :: t in all && Covered(s, t) ==> t == s
  {
    if s in kept {
      forall t | t in all && Covered(s, t)
        ensures t == s
      {
        var j :| 0 <= j < |kept| && Covered(t, kept[j]);
        CoveredTransitive(s, t, kept[j]);
        CoveredIsLonger(s, t);
        CoveredIsLonger(t, kept[j]);
      }
    } else if s in all {
      var j :| 0 <= j < |kept| && Covered(s, kept[j]);
      assert kept[j] in all;
    }
  }

  /** The pruned table matches the same hosts. */
  lemma PruneKeepsMeaning(all: seq<string>, kept: seq<string>, host: string)
    requires forall t :: t in kept ==> t in all
    requires forall t :: t in all ==> CoveredBy(t, kept)
    ensures CoveredBy(host, kept) <==> CoveredBy(host, all)
  {
    if CoveredBy(host, kept) {
      var i :| 0 <= i < |kept| && Covered(host, kept[i]);
      assert kept[i] in all;
    }
    if CoveredBy(host, all) {
      var i :| 0 <= i < |all| && Covered(host, all[i]);
      assert all[i] in all;
      var j :| 0 <= j < |kept| && Covered(all[i], kept[j]);
      CoveredTransitive(host, all[i], kept[j]);
    }
  }

  // ---- from listed domains to suffixes --------------------------------------------------

  const MULTI_LABEL_CN: set<string> := {
    "com.cn", "net.cn", "org.cn", "gov.cn", "edu.cn", "ac.cn", "mil.cn", "sh.cn", "bj.cn", "tj.cn", "cq.cn",
    "he.cn", "sx.cn", "nm.cn", "ln.cn", "jl.cn", "hl.cn", "js.cn", "zj.cn", "ah.cn", "fj.cn", "jx.cn", "sd.cn",
    "ha.cn", "hb.cn", "hn.cn", "gd.cn", "gx.cn", "hi.cn", "sc.cn", "gz.cn", "yn.cn", "xz.cn", "sn.cn", "gs.cn",
    "qh.cn", "nx.cn", "xj.cn", "tw.cn", "hk.cn", "mo.cn"
  }

  function LastLabels(labels: seq<string>, n: nat): string
    requires n <= |labels|
  {
    Join(labels[|labels| - n..], '.')
  }

  /** A listed domain without its outer dots, in lower case. */
  function Clean(domain: string): string {
    Lower(Strip(domain, c => c == '.'))
  }

  predicate Accepted(domain: string) {
    Clean(domain) != "" && |Split(Clean(domain), '.')| >= 2
  }

  /** The entry a domain becomes. */
  function Kept(domain: string): string
    requires Accepted(domain)
  {
    var labels := Split(Clean(domain), '.');
    if LastLabels(labels, 2) in MULTI_LABEL_CN && |labels| >= 3 then LastLabels(labels, 3) else LastLabels(labels, 2)
  }

  /** A label in lower case. */
  predicate IsLabel(s: string) {
    s != "" && '.' !in s && Lower(s) == s
  }

  /** The entry in terms of the labels: the last two of them, or three where the last two are one of the endings above. */
  lemma EntryOfLabels(labels: seq<string>)
    requires |labels| >= 2 && forall i :: 0 <= i < |labels| ==> IsLabel(labels[i])
    ensures Accepted(Join(labels, '.'))
    ensures var n := |labels|;
            var two := labels[n - 2] + "." + labels[n - 1];
            Kept(Join(labels, '.')) == if n >= 3 && two in MULTI_LABEL_CN then labels[n - 3] + "." + two else two
  {
    AcceptedIff(labels);
    CleanSplits(labels);
    EntryIs(Join(labels, '.'), labels);
    LastTwo(labels);
    if |labels| >= 3 {
      LastThree(labels);
    }
  }

  lemma AcceptedIff(labels: seq<string>)
    requires labels != [] && forall i :: 0 <= i < |labels| ==> IsLabel(labels[i])
    ensures Accepted(Join(labels, '.')) <==> |labels| >= 2
  {
    CleanSplits(labels);
  }

  lemma CleanSplits(labels: seq<string>)
    requires labels != [] && forall i :: 0 <= i < |labels| ==> IsLabel(labels[i])
    ensures Clean(Join(labels, '.')) != "" && Split(Clean(Join(labels, '.')), '.') == labels
  {
    LabelsAreClean(labels);
    SplitJoin(labels, '.');
  }

  lemma EntryIs(domain: string, labels: seq<string>)
    requires Accepted(domain) && Split(Clean(domain), '.') == labels
    ensures var two := LastLabels(labels, 2);
            Kept(domain) == if |labels| >= 3 && two in MULTI_LABEL_CN then LastLabels(labels, 3) else two
  {
  }

  lemma LastTwo(labels: seq<string>)
    requires |labels| >= 2
    ensures LastLabels(labels, 2) == labels[|labels| - 2] + "." + labels[|labels| - 1]
  {
    var last := labels[|labels| - 2..];
    assert last == [labels[|labels| - 2], labels[|labels| - 1]] && last[1..] == [labels[|labels| - 1]];
    assert Join(last[1..], '.') == labels[|labels| - 1];
  }

  lemma LastThree(labels: seq<string>)
    requires |labels| >= 3
    ensures LastLabels(labels, 3) == labels[|labels| - 3] + "." + LastLabels(labels, 2)
  {
    var last := labels[|labels| - 3..];
    assert last[1..] == labels[|labels| - 2..];
  }

  /** Such a name has no outer dots and no capitals. */
  lemma {:induction false} LabelsAreClean(labels: seq<string>)
    requires labels != [] && forall i :: 0 <= i < |labels| ==> IsLabel(labels[i])
    ensures var domain := Join(labels, '.');
            && domain != "" && domain[0] != '.' && domain[|domain| - 1] != '.' && Lower(domain) == domain && Clean(domain) == domain
    decreases |labels|
  {
    if |labels| > 1 {
      LabelsAreClean(labels[1..]);
      LowerAppend(labels[0], ".");
      LowerAppend(labels[0] + ".", Join(labels[1..], '.'));
      assert Lower(".") == ".";
    }
  }

  lemma LowerAppend(a: string, b: string)
    ensures Lower(a + b) == Lower(a) + Lower(b)
  {
  }

  lemma DropLabel(labels: seq<string>)
    requires |labels| >= 2
    ensures Covered(Join(labels, '.'), Join(labels[1..], '.'))
  {
    var dot := "." + Join(labels[1..], '.');
    assert Join(labels, '.') == labels[0] + dot;
  }

  lemma SameLastLabels(labels: seq<string>, n: nat)
    requires n < |labels|
    ensures LastLabels(labels, n) == LastLabels(labels[1..], n)
  {
    var rest := labels[1..];
    assert labels[|labels| - n..] == rest[|rest| - n..];
  }

  lemma {:induction false} LastLabelsCover(labels: seq<string>, n: nat)
    requires 1 <= n <= |labels|
    ensures Covered(Join(labels, '.'), LastLabels(labels, n))
    decreases |labels|
  {
    if n == |labels| {
      assert labels[0..] == labels;
    } else {
      var whole, rest, last := Join(labels, '.'), Join(labels[1..], '.'), LastLabels(labels, n);
      assert Covered(whole, rest) by { DropLabel(labels); }
      assert Covered(rest, last) by {
        SameLastLabels(labels, n);
        LastLabelsCover(labels[1..], n);
      }
      CoveredTransitive(whole, rest, last);
    }
  }

  /** A domain is covered by the entry it becomes. */
  lemma KeptCovers(domain: string)
    requires Accepted(domain)
    ensures Covered(Clean(domain), Kept(domain))
  {
    var labels := Split(Clean(domain), '.');
    JoinSplit(Clean(domain), '.');
    LastLabelsCover(labels, 2);
    if |labels| >= 3 {
      LastLabelsCover(labels, 3);
    }
  }

  function Insert(x: string, s: seq<string>): (r: seq<string>)
    requires SortedByLength(s)
    ensures SortedByLength(r)
    ensures forall t :: t in r <==> t == x || t in s
  {
    if s == [] then [x]
    else if |x| < |s[0]| then [x] + s
    else
      assert s == [s[0]] + s[1..];
      var rest := Insert(x, s[1..]);
      assert forall t :: t in rest ==> |s[0]| <= |t|;
      [s[0]] + rest
  }

  /** The stable sort by length. */
  function ByLength(s: seq<string>): (r: seq<string>)
    ensures SortedByLength(r)
    ensures forall t :: t in r <==> t in s
  {
    if s == [] then [] else
      assert s == s[..|s| - 1] + [s[|s| - 1]];
      Insert(s[|s| - 1], ByLength(s[..|s| - 1]))
  }

  predicate Entry(domains: seq<string>, s: string) {
    exists i :: 0 <= i < |domains| && Accepted(domains[i]) && Kept(domains[i]) == s
  }

  /** Some accepted domain of the list becomes an entry that covers the host. */
  predicate Wanted(domains: seq<string>, host: string) {
    exists i :: 0 <= i < |domains| && Accepted(domains[i]) && Covered(host, Kept(domains[i]))
  }

  /** The set of entries the accepted domains are cut to. */
  method Entries(domains: seq<string>) returns (suffixes: seq<string>)
    ensures forall s :: s in suffixes <==> Entry(domains, s)
  {
    suffixes := [];
    for k := 0 to |domains|
      invariant forall s :: s in suffixes <==> Entry(domains[..k], s)
    {
      EntryStep(domains, k);
      if Accepted(domains[k]) && Kept(domains[k]) !in suffixes {
        suffixes := suffixes + [Kept(domains[k])];
      }
    }
    assert domains[..|domains|] == domains;
  }

  /** The table built from the domains matched in the list: nothing is lost, nothing is added, no entry is redundant. */
  method ExtractSuffixes(domains: seq<string>) returns (kept: seq<string>)
    ensures forall host :: CoveredBy(host, kept) <==> Wanted(domains, host)
    ensures Antichain(kept)
    ensures forall s :: s in kept <==> Entry(domains, s) && forall t :: Entry(domains, t) && Covered(s, t) ==> t == s
  {
    var suffixes := Entries(domains);
    var sorted := ByLength(suffixes);
    kept := Prune(sorted);
    forall s
      ensures s in kept <==> Entry(domains, s) && forall t :: Entry(domains, t) && Covered(s, t) ==> t == s
    {
      PruneIsCanonical(sorted, kept, s);
    }
    forall host
      ensures CoveredBy(host, kept) <==> Wanted(domains, host)
    {
      PruneKeepsMeaning(sorted, kept, host);
      EntriesAreWanted(domains, sorted, host);
    }
  }

  lemma EntryStep(domains: seq<string>, k: nat)
    requires k < |domains|
    ensures forall s :: Entry(domains[..k + 1], s) <==> Entry(domains[..k], s) || (Accepted(domains[k]) && Kept(domains[k]) == s)
  {
    var a, b := domains[..k], domains[..k + 1];
    assert b == a + [domains[k]];
    forall s
      ensures Entry(b, s) <==> Entry(a, s) || (Accepted(domains[k]) && Kept(domains[k]) == s)
    {
      if Entry(a, s) {
        var i :| 0 <= i < |a| && Accepted(a[i]) && Kept(a[i]) == s;
        assert b[i] == a[i];
      }
      assert b[k] == domains[k];
    }
  }

  lemma EntriesAreWanted(domains: seq<string>, all: seq<string>, host: string)
    requires forall s :: s in all <==> Entry(domains, s)
    ensures CoveredBy(host, all) <==> Wanted(domains, host)
  {
    if CoveredBy(host, all) {
      var i :| 0 <= i < |all| && Covered(host, all[i]);
      assert Entry(domains, all[i]);
      var j :| 0 <= j < |domains| && Accepted(domains[j]) && Kept(domains[j]) == all[i];
    }
    if Wanted(domains, host) {
      var j :| 0 <= j < |domains| && Accepted(domains[j]) && Covered(host, Kept(domains[j]));
      assert Entry(domains, Kept(domains[j]));
      assert Kept(domains[j]) in all;
      var i :| 0 <= i < |all| && all[i] == Kept(domains[j]);
    }
  }

  // ---- looking a host up ------------------------------------------------------------------

  predicate InTable(table: set<string>, host: string) {
    exists s :: s in table && Covered(host, s)
  }

  /** The probe at the whole name and behind every dot finds an entry exactly when one covers the host. */
  method Lookup(table: set<string>, host: string) returns (direct: bool)
    ensures direct <==> EndsWith(host, ".cn") || InTable(table, host)
  {
    if host in table || EndsWith(host, ".cn") {
      return true;
    }
    var dot := IndexOf(host, '.', 0);
    while dot != -1
      invariant dot == -1 || (0 <= dot < |host| && host[dot] == '.')
      invariant forall j :: 0 <= j < |host| && (dot == -1 || j < dot) && host[j] == '.' ==> host[j + 1..] !in table
      decreases if dot == -1 then 0 else |host| - dot
    {
      if host[dot + 1..] in table {
        CoveredBehindDot(host, dot);
        return true;
      }
      dot := IndexOf(host, '.', dot + 1);
    }
    forall s | s in table
      ensures !Covered(host, s)
    {
      if EndsWith(host, "." + s) {
        EndBehindDot(host, s);
      }
    }
    return false;
  }

  lemma CoveredBehindDot(host: string, dot: nat)
    requires dot < |host| && host[dot] == '.'
    ensures Covered(host, host[dot + 1..])
  {
    var t := "." + host[dot + 1..];
    assert host[|host| - |t|..] == t;
  }

  lemma EndBehindDot(host: string, s: string)
    requires EndsWith(host, "." + s)
    ensures var dot := |host| - |s| - 1; host[dot] == '.' && host[dot + 1..] == s
  {
    var dot := |host| - |s| - 1;
    var t := "." + s;
    assert host[dot..] == t;
    assert t[1..] == s && host[dot..][1..] == host[dot + 1..];
  }

  function TableOf(kept: seq<string>): set<string> {
    set s: string | s in kept
  }

  /** Every accepted domain of the list and every name below it is found. */
  method BuildThenLookup(domains: seq<string>, i: nat, host: string) returns (direct: bool)
    requires i < |domains| && Accepted(domains[i]) && Covered(host, Clean(domains[i]))
    ensures direct
  {
    var kept := ExtractSuffixes(domains);
    KeptCovers(domains[i]);
    CoveredTransitive(host, Clean(domains[i]), Kept(domains[i]));
    assert Wanted(domains, host);
    assert CoveredBy(host, kept);
    direct := Lookup(TableOf(kept), host);
  }
}
