/** Lists and URLs on which the indexed verdict is not that of scanning every filter: each breaks one condition of
    the verdict theorem. */
module AblockLimits {
  import opened AblockChars
  import opened AblockGlob
  import opened AblockPattern
  import opened AblockToken
  import opened AblockIndex
  import opened AblockVerdict
  import opened AblockHosts
  import opened AblockTheorem

  /** No record is in the index: the host walk alone decides. */
  lemma OnlyHosts(af: seq<Filter>, tokenHash: string -> nat, hostHash: string -> nat, q: Request)
    requires forall i :: 0 <= i < |af| ==> !Indexed(af[i])
    ensures var hosts := HostMap(af, |af|, hostHash);
            IndexedAllows(af, hosts, tokenHash, hostHash, q) <==> !HostBlocked(af, hosts, hostHash, q)
  {
  }

  /** A request for the host of a live host record, from a plain span. */
  ghost predicate AsksFor(g: Filter, q: Request)
  {
    && g.host && HostRecord(g) && !g.dead && q.kind != Main
    && IsHostSpan(q.url, q.hs, q.he) && PlainHost(q.url, q.hs, q.he)
    && FoldAll(q.url[q.hs..q.he]) == FoldAll(HostName(g))
  }

  lemma AskedIsBlocked(af: seq<Filter>, q: Request, i: nat)
    requires i < |af| && AsksFor(af[i], q) && forall k :: 0 <= k < |af| ==> !af[k].exc
    ensures !MatcherAllows(af, q)
  {
    PlainHostIsSeen(q.url, q.hs, q.he);
    assert ReadsName(q.url, q.hs, q.he, q.hs, HostName(af[i]));
    HostRecordApplies(af[i], q);
    assert MatcherApplies(af[i], q);
  }

  /** Of two records with one name the host set keeps the first, and a badfilter that kills it lets the host through:
      whatever the name and the hash, for every request for that host. */
  lemma DeadNameHidesLater(af: seq<Filter>, tokenHash: string -> nat, hostHash: string -> nat, q: Request, g: nat)
    requires 0 < g < |af| && AsksFor(af[g], q) && NameKey(hostHash, af[g]) != 0
    requires af[0].host && af[0].dead && FoldAll(HostName(af[0])) == FoldAll(HostName(af[g]))
    requires forall k :: 0 <= k < |af| ==> !Indexed(af[k]) && !af[k].exc && (af[k].host ==> k == 0 || k == g)
    ensures IndexedAllows(af, HostMap(af, |af|, hostHash), tokenHash, hostHash, q) && !MatcherAllows(af, q)
  {
    OnlyHosts(af, tokenHash, hostHash, q);
    AskedIsBlocked(af, q, g);
    HostMapIsFirst(af, |af|, hostHash);
  }

  /** A name whose hash is zero never enters the host set. */
  lemma ZeroHashIsMissed(g: Filter, tokenHash: string -> nat, hostHash: string -> nat, q: Request)
    requires AsksFor(g, q) && NameKey(hostHash, g) == 0
    ensures IndexedAllows([g], HostMap([g], 1, hostHash), tokenHash, hostHash, q) && !MatcherAllows([g], q)
  {
    OnlyHosts([g], tokenHash, hostHash, q);
    AskedIsBlocked([g], q, 0);
    HostMapIsFirst([g], 1, hostHash);
  }

  /** A host whose hash is that of a listed name is blocked in its place. */
  lemma CollisionBlocks(g: Filter, tokenHash: string -> nat, hostHash: string -> nat, q: Request)
    requires g.host && HostRecord(g) && !g.dead && q.kind != Main && NameKey(hostHash, g) != 0
    requires IsHostSpan(q.url, q.hs, q.he) && PlainHost(q.url, q.hs, q.he)
    requires hostHash(FoldAll(q.url[q.hs..q.he])) == NameKey(hostHash, g)
    requires forall i :: !ReadsName(q.url, q.hs, q.he, i, HostName(g))
    ensures !IndexedAllows([g], HostMap([g], 1, hostHash), tokenHash, hostHash, q) && MatcherAllows([g], q)
  {
    var hosts := HostMap([g], 1, hostHash);
    OnlyHosts([g], tokenHash, hostHash, q);
    HostMapIsFirst([g], 1, hostHash);
    assert [g][0] == g;
    assert WalkFinds([g], hosts, hostHash, q, q.hs);
    PlainHostIsSeen(q.url, q.hs, q.he);
    HostRecordApplies(g, q);
  }

  /** A host record, written as a rule `||h^` or as a name in a hosts file. */
  function HostRule(h: string): (f: Filter)
  {
    Filter(HostPattern(h), {}, [], 0, false, false, false, false, false, false, true, false)
  }

  function HostLine(h: string): (f: Filter)
  {
    HostRule(h).(pattern := Pattern(h, Unanchored, false, FirstLiteral(h)))
  }

  /** The rule, a badfilter for it and the hosts-file line, as a list: for every host name the badfilter switches off
      the line too. */
  lemma BadfilterHidesHostsLine(h: string, tokenHash: string -> nat, hostHash: string -> nat, q: Request)
    requires h != "" && AllHostChars(h) && hostHash(FoldAll(h)) != 0 && AsksFor(HostLine(h), q)
    ensures var list := [HostRule(h), HostRule(h).(bf := true, host := false), HostLine(h)];
            var af := AfterBadfilters(list, 3);
            && NoneDead(list)
            && IndexedAllows(af, HostMap(af, 3, hostHash), tokenHash, hostHash, q) && !MatcherAllows(af, q)
  {
    var list := [HostRule(h), HostRule(h).(bf := true, host := false), HostLine(h)];
    var af := AfterBadfilters(list, 3);
    assert HostRule(h).pattern.anchor != HostLine(h).pattern.anchor;
    assert list[1].bf && SameRule(list[1], list[0]) && !SameRule(list[1], list[2]);
    assert NamedBad(list, 3, 0) && !NamedBad(list, 3, 2) && !NamedBad(list, 3, 1);
    assert HostName(HostRule(h)) == h;
    DeadNameHidesLater(af, tokenHash, hostHash, q, 2);
  }

  // ---- more runs than the scan looks up ----

  /** `n` times `/aaa`. */
  function Runs(n: nat): (u: string)
    ensures |u| == 4 * n && forall k :: 0 <= k < |u| ==> u[k] == if k % 4 == 0 then '/' else 'a'
  {
    if n == 0 then "" else Runs(n - 1) + "/aaa"
  }

  function LongUrl(n: nat): (u: string) { Runs(n) + "/bbb/" }

  lemma RunAt(n: nat, k: nat, at: nat)
    requires k < n && at == 4 * k
    ensures LongRunsFrom(LongUrl(n), at) == [(at + 1, at + 4)] + LongRunsFrom(LongUrl(n), at + 4)
  {
    var u := LongUrl(n);
    assert u[at] == '/' && u[at + 1] == u[at + 2] == u[at + 3] == 'a' && u[at + 4] == '/';
    assert EndOfRun(u, at + 1) == at + 4;
  }

  /** Its first runs are all `aaa`. */
  lemma {:induction false} FirstRuns(n: nat, k: nat, at: nat, i: nat)
    requires k <= i < n && at == 4 * k
    ensures var r := LongRunsFrom(LongUrl(n), at);
            i - k < |r| && r[i - k] == (4 * i + 1, 4 * i + 4)
    decreases i - k
  {
    RunAt(n, k, at);
    if k < i { FirstRuns(n, k + 1, at + 4, i); }
  }

  const BBB := Pattern("/bbb/", Unanchored, false, '/')

  lemma BbbIsPicked()
    ensures IsPick("/bbb/", 1, 4) && WellFormed(BBB) && Bounded(BBB, 1, 4)
  {
    assert FoldAll("/bbb/"[1..4]) == "bbb";
    assert IsRun("/bbb/", 1, 4) && Eligible("/bbb/", 1, 4);
    forall c: nat, d: nat | Eligible("/bbb/", c, d)
      ensures c == 1 && d == 4
    {
      assert c != 0 && c != 4;
      RunsDoNotOverlap("/bbb/", c, d, 1, 4);
    }
  }

  lemma BbbMatches(n: nat)
    ensures ScanHits(BBB, LongUrl(n), 0, 0)
  {
    var u, s := LongUrl(n), 4 * n;
    assert Aligned("/bbb/", u, s, [s, s + 1, s + 2, s + 3, s + 4, s + 5]);
    assert LeftmostMatches("/bbb/", u, s, false) && StartAllowed(BBB, u, 0, 0, s);
  }

  /** The filter for `/bbb/`, as the parser stores it. */
  function BbbFilter(hash: string -> nat): (f: Filter)
  {
    Filter(BBB, {}, [], TokenKey(hash, "bbb"), false, false, false, false, false, false, false, false)
  }

  /** Sixty-four runs or more before the token, in another bucket: the scan never looks the filter up. */
  lemma LateRunIsMissed(n: nat, tokenHash: string -> nat, hostHash: string -> nat, q: Request)
    requires n >= MAX_TOKENS && q.url == LongUrl(n) && q.hs == q.he == 0 && q.kind != Main
    requires TokenKey(tokenHash, "aaa") % BUCKETS != TokenKey(tokenHash, "bbb") % BUCKETS
    ensures var af := [BbbFilter(tokenHash)];
            && Parsed(af[0], tokenHash) && TokenBound(BBB) && LeadIsStars(BBB.text)
            && IndexedAllows(af, HostMap(af, 1, hostHash), tokenHash, hostHash, q) && !MatcherAllows(af, q)
  {
    var f := BbbFilter(tokenHash);
    var af := [f];
    BbbIsPicked();
    BbbMatches(n);
    assert MatcherApplies(af[0], q);
    NotConsulted(n, tokenHash);
    assert !Found(f, tokenHash, q);
    assert "/bbb/"[1..4] == "bbb";
  }

  lemma NotConsulted(n: nat, hash: string -> nat)
    requires n >= MAX_TOKENS && TokenKey(hash, "aaa") % BUCKETS != TokenKey(hash, "bbb") % BUCKETS
    ensures !Consulted(BbbFilter(hash), LongUrl(n), hash)
  {
    var u := LongUrl(n);
    forall r | r in ScannedRuns(u)
      ensures !RunKeyed(u, r, hash, TokenKey(hash, "bbb") % BUCKETS)
    {
      ScannedIsAaa(n, r);
    }
  }

  lemma ScannedIsAaa(n: nat, r: (nat, nat))
    requires n >= MAX_TOKENS && r in ScannedRuns(LongUrl(n))
    ensures r.0 <= r.1 <= |LongUrl(n)| && LongUrl(n)[r.0..r.1] == "aaa"
  {
    var u := LongUrl(n);
    FirstRuns(n, 0, 0, n - 1);
    var i :| 0 <= i < |ScannedRuns(u)| && ScannedRuns(u)[i] == r;
    FirstRuns(n, 0, 0, i);
    AaaAt(n, i);
  }

  lemma AaaAt(n: nat, i: nat)
    requires i < n
    ensures 4 * i + 4 <= |LongUrl(n)| && LongUrl(n)[4 * i + 1..4 * i + 4] == "aaa"
  {
    var u := LongUrl(n);
    assert u[4 * i + 1] == u[4 * i + 2] == u[4 * i + 3] == 'a';
  }
}
