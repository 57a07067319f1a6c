/** The request verdict: host-set walk, token buckets and tokenless list, against a scan of every
    filter by its declarative meaning. */
module AblockVerdict {
  import opened AblockChars
  import opened AblockGlob
  import opened AblockPattern
  import opened AblockToken
  import opened AblockIndex

  /** A request: the lower-cased URL with its host span, what is fetched, and the page it is for. */
  datatype Request = Request(url: string, hs: nat, he: nat, kind: Kind, thirdParty: bool, page: string)

  // ---- domain options ----

  /** `host` is `e` or a subdomain of it. */
  predicate HostSuffix(host: string, e: string)
  {
    && 0 < |e| <= |host|
    && host[|host| - |e|..] == e
    && (|e| < |host| ==> host[|host| - |e| - 1] == '.')
  }

  /** No excluded domain matches, and some listed one does if any is listed. */
  ghost predicate DomainsAllow(doms: seq<Domain>, host: string)
  {
    && (forall i :: 0 <= i < |doms| && doms[i].neg ==> !HostSuffix(host, doms[i].name))
    && ((exists i :: 0 <= i < |doms| && !doms[i].neg) ==>
          exists i :: 0 <= i < |doms| && !doms[i].neg && HostSuffix(host, doms[i].name))
  }

  method DomMatch(doms: seq<Domain>, host: string) returns (ok: bool)
    ensures ok == DomainsAllow(doms, host)
  {
    var pos, hasPos := false, false;
    for i := 0 to |doms|
      invariant forall k :: 0 <= k < i && doms[k].neg ==> !HostSuffix(host, doms[k].name)
      invariant hasPos == exists k :: 0 <= k < i && !doms[k].neg
      invariant pos == exists k :: 0 <= k < i && !doms[k].neg && HostSuffix(host, doms[k].name)
    {
      var m := HostSuffix(host, doms[i].name);
      if doms[i].neg {
        if m { return false; }
      } else {
        hasPos := true;
        if m { pos := true; }
      }
    }
    return if hasPos then pos else true;
  }

  // ---- one filter ----

  /** Everything but the pattern: liveness, type, party and page domain. Untyped filters never apply
      to a top-level document. */
  ghost predicate OptionsAllow(f: Filter, q: Request)
  {
    && !f.dead && !f.bf
    && (if f.types == {} then q.kind != Main else q.kind in f.types)
    && (f.thirdOnly ==> q.thirdParty)
    && (f.firstOnly ==> !q.thirdParty)
    && DomainsAllow(f.doms, q.page)
  }

  ghost predicate EngineApplies(f: Filter, q: Request)
  {
    OptionsAllow(f, q) && EngineHits(f.pattern, q.url, q.hs, q.he)
  }

  predicate SpanInside(q: Request) { q.hs <= q.he <= |q.url| }

  predicate Evaluable(f: Filter, q: Request) { WellFormed(f.pattern) && WithinBudget(f.pattern.text, q.url) }

  datatype Outcome = NoMatch | Block | Allow

  /** `eval_filter`. */
  method EvalFilter(f: Filter, q: Request) returns (r: Outcome)
    requires SpanInside(q) && Evaluable(f, q)
    ensures (r != NoMatch) == EngineApplies(f, q)
    ensures r != NoMatch ==> (r == Allow) == f.exc
  {
    if f.dead || f.bf { return NoMatch; }
    if f.types == {} {
      if q.kind == Main { return NoMatch; }
    } else if q.kind !in f.types {
      return NoMatch;
    }
    if f.thirdOnly && !q.thirdParty { return NoMatch; }
    if f.firstOnly && q.thirdParty { return NoMatch; }
    if f.doms != [] {
      var ok := DomMatch(f.doms, q.page);
      if !ok { return NoMatch; }
    }
    var hit := PatMatch(f.pattern, q.url, q.hs, q.he);
    if !hit { return NoMatch; }
    return if f.exc then Allow else Block;
  }

  // ---- the declarative verdict ----

  /** The host name of a host-set record. */
  function HostName(f: Filter): (h: string)
  {
    var t := f.pattern.text;
    if f.pattern.anchor == AtHost && t != "" then t[..|t| - 1] else t
  }

  /** `||h^`. */
  function HostPattern(h: string): (p: Pattern) { Pattern(h + "^", AtHost, false, FirstLiteral(h + "^")) }

  /** The pattern a filter stands for; host-set records mean `||host^`. */
  function Meaning(f: Filter): (p: Pattern) { if f.host then HostPattern(HostName(f)) else f.pattern }

  /** A filter applies to a request. */
  ghost predicate Applies(f: Filter, q: Request)
  {
    OptionsAllow(f, q) && Hits(Meaning(f), q.url, q.hs, q.he)
  }

  /** The matcher, tried from every allowed start, says it does. */
  ghost predicate MatcherApplies(f: Filter, q: Request)
  {
    OptionsAllow(f, q) && ScanHits(Meaning(f), q.url, q.hs, q.he)
  }

  /** The verdict of scanning every filter: important blocks over exceptions over blocks. */
  ghost predicate ScanAllows(af: seq<Filter>, applies: Filter -> bool)
  {
    && !(exists i :: 0 <= i < |af| && applies(af[i]) && !af[i].exc && af[i].imp)
    && ((exists i :: 0 <= i < |af| && applies(af[i]) && af[i].exc)
        || !(exists i :: 0 <= i < |af| && applies(af[i]) && !af[i].exc))
  }

  ghost predicate LinearAllows(af: seq<Filter>, q: Request) { ScanAllows(af, f => Applies(f, q)) }

  ghost predicate MatcherAllows(af: seq<Filter>, q: Request) { ScanAllows(af, f => MatcherApplies(f, q)) }

  // ---- the runs of a URL ----

  const MAX_TOKENS := 64

  /** From `i` on, the maximal runs of at least three token characters. */
  ghost function LongRunsFrom(u: string, i: nat): (r: seq<(nat, nat)>)
    requires i <= |u|
    decreases |u| - i
  {
    if i == |u| then []
    else if !IsTokenChar(u[i]) then LongRunsFrom(u, i + 1)
    else
      var j := EndOfRun(u, i);
      (if j - i >= 3 then [(i, j)] else []) + LongRunsFrom(u, j)
  }

  ghost function EndOfRun(u: string, i: nat): (j: nat)
    requires i < |u| && IsTokenChar(u[i])
    ensures i < j <= |u| && (forall k :: i <= k < j ==> IsTokenChar(u[k])) && (j == |u| || !IsTokenChar(u[j]))
    decreases |u| - i
  {
    if i + 1 == |u| || !IsTokenChar(u[i + 1]) then i + 1 else EndOfRun(u, i + 1)
  }

  /** No run is cut by starting the scan at `i`. */
  ghost predicate Boundary(u: string, i: nat)
  {
    i <= |u| && (i == 0 || i == |u| || !IsTokenChar(u[i - 1]) || !IsTokenChar(u[i]))
  }

  lemma {:induction false} LongRunsAreAll(u: string, i: nat, a: nat, b: nat)
    requires Boundary(u, i) && IsRun(u, a, b) && i <= a && b - a >= 3
    ensures (a, b) in LongRunsFrom(u, i)
    decreases |u| - i
  {
    if !IsTokenChar(u[i]) {
      LongRunsAreAll(u, i + 1, a, b);
    } else {
      var j := EndOfRun(u, i);
      assert IsRun(u, i, j);
      if a < j {
        RunsDoNotOverlap(u, a, b, i, j);
      } else {
        LongRunsAreAll(u, j, a, b);
      }
    }
  }

  // ---- what the indexed scan consults ----

  /** The index key of a run: its hash with the low bit set, so never zero. */
  function TokenKey(hash: string -> nat, run: string): (k: nat)
    ensures k != 0
  {
    var h := hash(FoldAll(run));
    if h % 2 == 0 then h + 1 else h
  }

  ghost function ScannedRuns(u: string): (r: seq<(nat, nat)>)
  {
    var all := LongRunsFrom(u, 0);
    if |all| <= MAX_TOKENS then all else all[..MAX_TOKENS]
  }

  ghost predicate RunKeyed(u: string, r: (nat, nat), hash: string -> nat, b: nat)
  {
    r.0 <= r.1 <= |u| && TokenKey(hash, u[r.0..r.1]) % BUCKETS == b
  }

  /** The scan looks at filter `f`: it is tokenless, or one of the scanned runs falls in its bucket. */
  ghost predicate Consulted(f: Filter, u: string, hash: string -> nat)
  {
    Indexed(f) && (f.thash == 0 || exists r :: r in ScannedRuns(u) && RunKeyed(u, r, hash, f.thash % BUCKETS))
  }

  /** A label of the host span starts at `i`. */
  predicate LabelStart(u: string, hs: nat, he: nat, i: nat)
  {
    hs <= i < he <= |u| && (i == hs || u[i - 1] == '.')
  }

  /** The host walk from label `i` finds a live record. */
  ghost predicate WalkFinds(af: seq<Filter>, hosts: map<nat, int>, hash: string -> nat, q: Request, i: nat)
  {
    && LabelStart(q.url, q.hs, q.he, i)
    && var k := hash(FoldAll(q.url[i..q.he]));
       k in hosts && 0 <= hosts[k] < |af| && !af[hosts[k]].dead
  }

  ghost predicate HostBlocked(af: seq<Filter>, hosts: map<nat, int>, hash: string -> nat, q: Request)
  {
    q.kind != Main && exists i :: WalkFinds(af, hosts, hash, q, i)
  }

  /** The scan consults filter `f` and its evaluation matches. */
  ghost predicate Found(f: Filter, hash: string -> nat, q: Request)
  {
    Consulted(f, q.url, hash) && EngineApplies(f, q)
  }

  /** The verdict over the filters found, given whether the host set blocked. */
  ghost predicate SplitAllows(af: seq<Filter>, hash: string -> nat, q: Request, blocked: bool)
  {
    && !(exists i :: 0 <= i < |af| && Found(af[i], hash, q) && !af[i].exc && af[i].imp)
    && ((exists i :: 0 <= i < |af| && Found(af[i], hash, q) && af[i].exc)
        || !(blocked || exists i :: 0 <= i < |af| && Found(af[i], hash, q) && !af[i].exc))
  }

  /** What the indexed scan answers. */
  ghost predicate IndexedAllows(af: seq<Filter>, hosts: map<nat, int>, tokenHash: string -> nat,
                                hostHash: string -> nat, q: Request)
  {
    SplitAllows(af, tokenHash, q, HostBlocked(af, hosts, hostHash, q))
  }
}
