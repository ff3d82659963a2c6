/** `get_local_ip`: the address printed for the viewer URL, chosen from the
    list `getifaddrs` returns.  Each entry is reduced to the facts the
    selection reads: its name, its address family (absent when `ifa_addr` is
    null), the `IFF_UP` and `IFF_RUNNING` flags, and the numeric host text
    `getnameinfo` produced (absent when it failed). */
module LocalIp {
  import opened Text

  datatype Family = Inet | Inet6 | OtherFamily

  datatype IfAddr = IfAddr(name: string, family: Option<Family>, up: bool, isRunning: bool, host: Option<string>)

  const Loopback := "127.0.0.1"

  /** The entries the loop scores: IPv4, not named exactly `lo`, with a host
      text. */
  predicate Usable(e: IfAddr)
  {
    e.family == Some(Inet) && e.name != "lo" && e.host.Some?
  }

  /** The score of an interface; the `strncmp` tests are prefix tests. */
  function Priority(e: IfAddr): (p: int)
    ensures e.up && e.isRunning ==> 105 <= p <= 120
    ensures e.up && !e.isRunning ==> 50 <= p <= 60
    ensures !e.up ==> p == 10
  {
    if e.up && e.isRunning then
      100 + (if "wlan" <= e.name then 20 else if "eth" <= e.name then 15
             else if "en" <= e.name then 15 else 5)
    else if e.up then
      50 + (if "wlan" <= e.name then 10 else if "eth" <= e.name then 8
            else if "en" <= e.name then 8 else 0)
    else 10
  }

  /** Any up-and-running interface beats any interface that is only up, and
      that beats any interface that is down; every score is positive. */
  lemma PriorityTiers(a: IfAddr, b: IfAddr)
    ensures a.up && a.isRunning && !(b.up && b.isRunning) ==> Priority(a) > Priority(b)
    ensures a.up && !b.up ==> Priority(a) > Priority(b)
  {
  }

  /** The best score among usable entries, `-1` when there is none.  Defined
      on the last entry so that it follows the scan. */
  function MaxPriority(s: seq<IfAddr>): (m: int)
    ensures m == -1 <==> forall k :: 0 <= k < |s| ==> !Usable(s[k])
    ensures forall k :: 0 <= k < |s| && Usable(s[k]) ==> Priority(s[k]) <= m
    ensures m != -1 ==> exists k :: 0 <= k < |s| && Usable(s[k]) && Priority(s[k]) == m
  {
    if s == [] then -1
    else
      var init := s[..|s| - 1];
      var last := s[|s| - 1];
      var m0 := MaxPriority(init);
      assert forall k :: 0 <= k < |init| ==> init[k] == s[k];
      if Usable(last) && Priority(last) > m0 then Priority(last) else m0
  }

  /** `k` is the first usable entry with the best score. */
  predicate IsFirstBest(s: seq<IfAddr>, k: nat)
  {
    k < |s| && Usable(s[k]) && Priority(s[k]) == MaxPriority(s)
    && forall j :: 0 <= j < k && Usable(s[j]) ==> Priority(s[j]) < Priority(s[k])
  }

  /** A usable entry whose host may serve as the fallback. */
  predicate FallbackCandidate(e: IfAddr)
  {
    Usable(e) && e.host.value != Loopback && e.host.value != ""
  }

  /** `k` is the first fallback candidate. */
  predicate IsFallback(s: seq<IfAddr>, k: nat)
  {
    k < |s| && FallbackCandidate(s[k]) && forall j :: 0 <= j < k ==> !FallbackCandidate(s[j])
  }

  /** Only one entry is the first best. */
  lemma FirstBestUnique(s: seq<IfAddr>, k1: nat, k2: nat)
    requires IsFirstBest(s, k1) && IsFirstBest(s, k2)
    ensures k1 == k2
  {
  }

  lemma FallbackUnique(s: seq<IfAddr>, k1: nat, k2: nat)
    requires IsFallback(s, k1) && IsFallback(s, k2)
    ensures k1 == k2
  {
  }

  /** The first index whose entry satisfies the best-score test, or `|s|`. */
  function FirstWithPriority(s: seq<IfAddr>, p: int, from: nat): (k: nat)
    requires from <= |s|
    ensures from <= k <= |s|
    ensures k < |s| ==> Usable(s[k]) && Priority(s[k]) == p
    ensures forall j :: from <= j < k ==> !(Usable(s[j]) && Priority(s[j]) == p)
    decreases |s| - from
  {
    if from == |s| then |s|
    else if Usable(s[from]) && Priority(s[from]) == p then from
    else FirstWithPriority(s, p, from + 1)
  }

  /** Whenever some entry is usable, a first best entry exists. */
  function FirstBest(s: seq<IfAddr>): (r: Option<nat>)
    ensures r.None? <==> forall k :: 0 <= k < |s| ==> !Usable(s[k])
    ensures r.Some? ==> IsFirstBest(s, r.value)
  {
    var m := MaxPriority(s);
    if m == -1 then None
    else
      var k := FirstWithPriority(s, m, 0);
      assert k < |s|;
      Some(k)
  }

  /** The first fallback candidate, if any. */
  function FirstFallback(s: seq<IfAddr>, from: nat): (r: Option<nat>)
    requires from <= |s|
    requires forall j :: 0 <= j < from ==> !FallbackCandidate(s[j])
    ensures r.None? <==> forall k :: 0 <= k < |s| ==> !FallbackCandidate(s[k])
    ensures r.Some? ==> IsFallback(s, r.value)
    decreases |s| - from
  {
    if from == |s| then None
    else if FallbackCandidate(s[from]) then Some(from)
    else FirstFallback(s, from + 1)
  }

  /** The address `get_local_ip` reports: the host of the first best entry,
      replaced by the first fallback candidate when it is `127.0.0.1`;
      `127.0.0.1` when nothing is usable or the list cannot be read. */
  function ExpectedIp(ifaddrs: Option<seq<IfAddr>>): (ip: string)
    ensures ifaddrs.None? ==> ip == Loopback
    ensures ifaddrs.Some? && (forall k :: 0 <= k < |ifaddrs.value| ==> !Usable(ifaddrs.value[k]))
            ==> ip == Loopback
  {
    match ifaddrs
    case None => Loopback
    case Some(s) =>
      var chosen := match FirstBest(s) case None => Loopback case Some(k) => s[k].host.value;
      match FirstFallback(s, 0)
      case Some(f) => if chosen == Loopback then s[f].host.value else chosen
      case None => chosen
  }

  /** The reported address is `127.0.0.1` or the host of a usable entry: an
      entry named `lo`, a non-IPv4 entry or one without host text is never
      reported. */
  lemma ReportedIsUsable(ifaddrs: Option<seq<IfAddr>>)
    ensures var ip := ExpectedIp(ifaddrs);
            ip == Loopback
            || (ifaddrs.Some? && exists k :: 0 <= k < |ifaddrs.value| && Usable(ifaddrs.value[k])
                                             && ifaddrs.value[k].host.value == ip)
  {
  }

  /** A reported address other than `127.0.0.1` that is not a fallback is
      the host of an entry no other usable entry outscores. */
  lemma ReportedBeatsTheRest(s: seq<IfAddr>, k: nat)
    requires FirstBest(s) == Some(k) && s[k].host.value != Loopback
    ensures ExpectedIp(Some(s)) == s[k].host.value
    ensures forall j :: 0 <= j < |s| && Usable(s[j]) ==> Priority(s[j]) <= Priority(s[k])
  {
  }

  lemma MaxPriorityStep(s: seq<IfAddr>, i: nat)
    requires i < |s|
    ensures MaxPriority(s[..i + 1]) ==
              if Usable(s[i]) && Priority(s[i]) > MaxPriority(s[..i]) then Priority(s[i])
              else MaxPriority(s[..i])
  {
    assert s[..i + 1][..i] == s[..i];
  }

  /** An entry that does not beat the best so far leaves the first best
      where it was. */
  lemma FirstBestKeep(s: seq<IfAddr>, i: nat, best: nat)
    requires i < |s| && IsFirstBest(s[..i], best)
    requires !(Usable(s[i]) && Priority(s[i]) > MaxPriority(s[..i]))
    ensures IsFirstBest(s[..i + 1], best)
  {
    MaxPriorityStep(s, i);
    var t, u := s[..i + 1], s[..i];
    assert t[best] == u[best];
    forall j | 0 <= j < best && Usable(t[j]) ensures Priority(t[j]) < Priority(t[best]) {
      assert t[j] == u[j];
    }
  }

  /** An entry that beats the best so far becomes the first best. */
  lemma FirstBestNew(s: seq<IfAddr>, i: nat)
    requires i < |s| && Usable(s[i]) && Priority(s[i]) > MaxPriority(s[..i])
    ensures IsFirstBest(s[..i + 1], i)
  {
    MaxPriorityStep(s, i);
    var t := s[..i + 1];
    forall j | 0 <= j < i && Usable(t[j]) ensures Priority(t[j]) < Priority(s[i]) {
      assert t[j] == s[..i][j];
    }
  }

  lemma FallbackKeep(s: seq<IfAddr>, i: nat, f: nat)
    requires i < |s| && IsFallback(s[..i], f)
    ensures IsFallback(s[..i + 1], f)
  {
    assert forall j :: 0 <= j <= f ==> s[..i + 1][j] == s[..i][j];
  }

  lemma FallbackNew(s: seq<IfAddr>, i: nat)
    requires i < |s| && FallbackCandidate(s[i])
    requires forall j :: 0 <= j < i ==> !FallbackCandidate(s[j])
    ensures IsFallback(s[..i + 1], i)
  {
  }

  /** What the loop knows after the first `i` entries. */
  predicate Scanned(s: seq<IfAddr>, i: nat, bestPriority: int, result: string, fallbackIp: string,
                    best: nat, fallback: nat)
  {
    i <= |s|
    && bestPriority == MaxPriority(s[..i])
    && (bestPriority == -1 ==> result == Loopback)
    && (bestPriority != -1 ==> IsFirstBest(s[..i], best) && result == s[best].host.value)
    && (fallbackIp == "" ==> forall j :: 0 <= j < i ==> !FallbackCandidate(s[j]))
    && (fallbackIp != "" ==> IsFallback(s[..i], fallback) && fallbackIp == s[fallback].host.value)
  }

  /** One pass of the loop body keeps `Scanned`. */
  lemma ScanStep(s: seq<IfAddr>, i: nat, bp: int, res: string, fb: string, best: nat, fbi: nat,
                 bp': int, res': string, fb': string, best': nat, fbi': nat)
    requires i < |s| && Scanned(s, i, bp, res, fb, best, fbi)
    requires !Usable(s[i]) ==> bp' == bp && res' == res && fb' == fb && best' == best && fbi' == fbi
    requires Usable(s[i]) && Priority(s[i]) > bp ==>
               bp' == Priority(s[i]) && res' == s[i].host.value && best' == i
    requires Usable(s[i]) && Priority(s[i]) <= bp ==> bp' == bp && res' == res && best' == best
    requires Usable(s[i]) && fb == "" && s[i].host.value != Loopback ==>
               fb' == s[i].host.value && fbi' == i
    requires Usable(s[i]) && !(fb == "" && s[i].host.value != Loopback) ==> fb' == fb && fbi' == fbi
    ensures Scanned(s, i + 1, bp', res', fb', best', fbi')
  {
    MaxPriorityStep(s, i);
    if Usable(s[i]) && Priority(s[i]) > bp {
      FirstBestNew(s, i);
    } else if bp != -1 {
      FirstBestKeep(s, i, best);
    }
    if Usable(s[i]) && fb == "" && s[i].host.value != Loopback {
      if s[i].host.value != "" {
        FallbackNew(s, i);
      }
    } else if fb != "" {
      FallbackKeep(s, i, fbi);
    }
  }

  /** After the whole list the loop's values are those of the definition. */
  lemma ScanDone(s: seq<IfAddr>, bp: int, res: string, fb: string, best: nat, fbi: nat)
    requires Scanned(s, |s|, bp, res, fb, best, fbi)
    ensures ExpectedIp(Some(s)) == if res == Loopback && fb != "" then fb else res
  {
    assert s[..|s|] == s;
    if bp != -1 {
      FirstBestUnique(s, best, FirstBest(s).value);
    }
    if fb != "" {
      FallbackUnique(s, fbi, FirstFallback(s, 0).value);
    }
  }

  /** The scan of lines 230-276 and the fallback of lines 287-289. */
  method GetLocalIp(ifaddrs: Option<seq<IfAddr>>) returns (ip: string)
    ensures ip == ExpectedIp(ifaddrs)
  {
    if ifaddrs.None? {
      return Loopback;
    }
    var s := ifaddrs.value;
    var result := Loopback;
    var fallbackIp := "";
    var bestPriority := -1;
    ghost var best: nat := 0;
    ghost var fallback: nat := 0;
    var i := 0;
    while i < |s|
      invariant Scanned(s, i, bestPriority, result, fallbackIp, best, fallback)
      decreases |s| - i
    {
      var e := s[i];
      ghost var bp, res, fb, b0, f0 := bestPriority, result, fallbackIp, best, fallback;
      if e.family.None? || e.family.value != Inet || e.name == "lo" || e.host.None? {
        ScanStep(s, i, bp, res, fb, b0, f0, bestPriority, result, fallbackIp, best, fallback);
        i := i + 1;
        continue;
      }
      var host := e.host.value;
      var priority := Priority(e);
      if priority > bestPriority {
        bestPriority := priority;
        result := host;
        best := i;
      }
      if fallbackIp == "" && host != Loopback {
        fallbackIp := host;
        fallback := i;
      }
      ScanStep(s, i, bp, res, fb, b0, f0, bestPriority, result, fallbackIp, best, fallback);
      i := i + 1;
    }
    ScanDone(s, bestPriority, result, fallbackIp, best, fallback);
    if result == Loopback && fallbackIp != "" {
      result := fallbackIp;
    }
    return result;
  }
}
