/** The indexed verdict equals the linear scan, and the conditions under which it does. */
module AblockTheorem {
  import opened AblockChars
  import opened AblockPattern
  import opened AblockToken
  import opened AblockIndex
  import opened AblockVerdict
  import opened AblockHosts

  // ---- what the list parser stores ----

  /** A record of the host set carries no options. */
  predicate HostRecord(f: Filter)
  {
    && f.types == {} && f.doms == [] && !f.thirdOnly && !f.firstOnly && !f.imp && !f.exc && !f.bf
    && HostName(f) != "" && AllHostChars(HostName(f))
  }

  ghost predicate TokenStored(f: Filter, hash: string -> nat)
  {
    || (f.thash == 0 && NothingToPick(f.pattern.text))
    || exists a: nat, b: nat :: IsPick(f.pattern.text, a, b) && f.thash == TokenKey(hash, f.pattern.text[a..b])
  }

  ghost predicate Parsed(f: Filter, hash: string -> nat)
  {
    if f.host then HostRecord(f) else WellFormed(f.pattern) && TokenStored(f, hash)
  }

  function NameKey(hash: string -> nat, f: Filter): (k: nat) { hash(FoldAll(HostName(f))) }

  /** The host set after the parser's insertions: each name hash, nonzero, to its first record. */
  ghost function HostMap(af: seq<Filter>, n: nat, hash: string -> nat): (m: map<nat, int>)
    requires n <= |af|
  {
    if n == 0 then map[]
    else
      var m := HostMap(af, n - 1, hash);
      var k := NameKey(hash, af[n - 1]);
      if af[n - 1].host && k != 0 && k !in m then m[k := n - 1] else m
  }

  lemma {:induction false} HostMapEntry(af: seq<Filter>, n: nat, hash: string -> nat, k: nat)
    requires n <= |af| && k in HostMap(af, n, hash)
    ensures var i := HostMap(af, n, hash)[k]; 0 <= i < n && af[i].host && NameKey(hash, af[i]) == k && k != 0
  {
    if k in HostMap(af, n - 1, hash) { HostMapEntry(af, n - 1, hash, k); }
  }

  lemma {:induction false} HostMapHas(af: seq<Filter>, n: nat, hash: string -> nat, j: nat)
    requires j < n <= |af| && af[j].host && NameKey(hash, af[j]) != 0
    ensures NameKey(hash, af[j]) in HostMap(af, n, hash) && HostMap(af, n, hash)[NameKey(hash, af[j])] <= j
  {
    if j < n - 1 {
      HostMapHas(af, n - 1, hash, j);
    } else if NameKey(hash, af[j]) in HostMap(af, j, hash) {
      HostMapEntry(af, j, hash, NameKey(hash, af[j]));
    }
  }

  lemma HostMapIsFirst(af: seq<Filter>, n: nat, hash: string -> nat)
    requires n <= |af|
    ensures forall k :: k in HostMap(af, n, hash) ==>
                          var i := HostMap(af, n, hash)[k];
                          0 <= i < n && af[i].host && NameKey(hash, af[i]) == k && k != 0
    ensures forall j :: 0 <= j < n && af[j].host && NameKey(hash, af[j]) != 0 ==>
                          NameKey(hash, af[j]) in HostMap(af, n, hash)
                          && HostMap(af, n, hash)[NameKey(hash, af[j])] <= j
  {
    forall k | k in HostMap(af, n, hash)
      ensures var i := HostMap(af, n, hash)[k]; 0 <= i < n && af[i].host && NameKey(hash, af[i]) == k && k != 0
    {
      HostMapEntry(af, n, hash, k);
    }
    forall j | 0 <= j < n && af[j].host && NameKey(hash, af[j]) != 0
      ensures NameKey(hash, af[j]) in HostMap(af, n, hash) && HostMap(af, n, hash)[NameKey(hash, af[j])] <= j
    {
      HostMapHas(af, n, hash, j);
    }
  }

  /** Marking filters dead does not move the host set. */
  lemma {:induction false} HostMapIgnoresDeath(af: seq<Filter>, bf: seq<Filter>, n: nat, hash: string -> nat)
    requires n <= |af| == |bf|
    requires forall j :: 0 <= j < n ==> bf[j] == af[j].(dead := bf[j].dead)
    ensures HostMap(af, n, hash) == HostMap(bf, n, hash)
  {
    if n > 0 {
      HostMapIgnoresDeath(af, bf, n - 1, hash);
      assert bf[n - 1] == af[n - 1].(dead := bf[n - 1].dead);
      assert HostName(bf[n - 1]) == HostName(af[n - 1]);
    }
  }

  // ---- the hypotheses ----

  predicate Live(f: Filter) { !f.dead && !f.bf }

  /** The stored token occurs bounded in the pattern. */
  ghost predicate TokenBound(p: Pattern)
  {
    forall a: nat, b: nat :: IsPick(p.text, a, b) ==> HasBoundedOccurrence(p, FoldAll(p.text[a..b]))
  }

  /** The index may hold the pattern: the quick reject is right about it, and so is its token. */
  ghost predicate Indexable(p: Pattern)
  {
    (p.anchor == Unanchored ==> LeadIsStars(p.text)) && TokenBound(p)
  }

  /** Name hashes of live records are nonzero and tell their names apart from all others and from the
      URL's labels. */
  ghost predicate NoCollisions(af: seq<Filter>, hash: string -> nat, q: Request)
  {
    && (forall i :: 0 <= i < |af| && af[i].host && Live(af[i]) ==> NameKey(hash, af[i]) != 0)
    && (forall i, j :: 0 <= i < |af| && 0 <= j < |af| && af[i].host && Live(af[i]) && af[j].host
                       && NameKey(hash, af[i]) == NameKey(hash, af[j]) ==>
                         FoldAll(HostName(af[i])) == FoldAll(HostName(af[j])))
    && forall i, k: nat :: (0 <= i < |af| && af[i].host && Live(af[i]) && LabelStart(q.url, q.hs, q.he, k)
                            && NameKey(hash, af[i]) == hash(FoldAll(q.url[k..q.he]))) ==>
                             FoldAll(HostName(af[i])) == FoldAll(q.url[k..q.he])
  }

  /** No host is named first by a dead record and again by a live one. */
  ghost predicate FirstNamedDecides(af: seq<Filter>)
  {
    forall i, j :: 0 <= i < j < |af| && af[i].host && af[j].host
                   && FoldAll(HostName(af[i])) == FoldAll(HostName(af[j])) ==>
                     (af[i].dead ==> af[j].dead)
  }

  /** The parser makes no host record out of a badfilter line. */
  ghost predicate HostsAreBlocks(af: seq<Filter>)
  {
    forall i :: 0 <= i < |af| && af[i].host ==> !af[i].bf
  }

  /** What the index needs of the live filters and of the URL. */
  ghost predicate Agreeable(af: seq<Filter>, tokenHash: string -> nat, hostHash: string -> nat, q: Request)
  {
    && (forall i :: 0 <= i < |af| && Live(af[i]) ==> Parsed(af[i], tokenHash))
    && (forall i :: 0 <= i < |af| && Indexed(af[i]) ==> Indexable(af[i].pattern))
    && HostsAreBlocks(af) && NoCollisions(af, hostHash, q) && FirstNamedDecides(af)
    && IsHostSpan(q.url, q.hs, q.he) && WalkSees(q.url, q.hs, q.he)
    && |LongRunsFrom(q.url, 0)| <= MAX_TOKENS
  }

  /** No live filter has both a star and an end anchor. */
  predicate EndsExactly(af: seq<Filter>)
  {
    forall i :: 0 <= i < |af| && Indexed(af[i]) && af[i].pattern.enda ==> '*' !in af[i].pattern.text
  }

  // ---- the theorem ----

  /** In the index, the scan consults every filter that applies and judges it as the matcher does. */
  lemma TokenSide(f: Filter, hash: string -> nat, q: Request)
    requires Indexed(f) && Parsed(f, hash) && Indexable(f.pattern)
    requires IsHostSpan(q.url, q.hs, q.he) && |LongRunsFrom(q.url, 0)| <= MAX_TOKENS
    ensures MatcherApplies(f, q) <==> Found(f, hash, q)
  {
    EngineIsScan(f.pattern, q.url, q.hs, q.he);
    if MatcherApplies(f, q) && f.thash != 0 {
      var a: nat, b: nat :| IsPick(f.pattern.text, a, b) && f.thash == TokenKey(hash, f.pattern.text[a..b]);
      var run := FoldAll(f.pattern.text[a..b]);
      var c: nat, d: nat :| Bounded(f.pattern, c, d) && FoldAll(f.pattern.text[c..d]) == run;
      ScanAgainstHits(f.pattern, q.url, q.hs, q.he);
      BoundedRunIsInUrl(f.pattern, c, d, q.url, q.hs, q.he);
      RunReachesBucket(f, run, hash, q.url);
    }
  }

  lemma RunReachesBucket(f: Filter, run: string, hash: string -> nat, u: string)
    requires HasRun(u, run) && |run| >= 3 && Indexed(f) && |LongRunsFrom(u, 0)| <= MAX_TOKENS
    requires f.thash == (if hash(run) % 2 == 0 then hash(run) + 1 else hash(run))
    ensures Consulted(f, u, hash)
  {
    var x: nat, y: nat :| IsRun(u, x, y) && FoldAll(u[x..y]) == run;
    assert |u[x..y]| == |FoldAll(u[x..y])|;
    LongRunsAreAll(u, 0, x, y);
    assert RunKeyed(u, (x, y), hash, f.thash % BUCKETS);
  }

  /** A live host record applies exactly when the walk reads its name from some label. */
  lemma HostRecordApplies(f: Filter, q: Request)
    requires f.host && HostRecord(f) && IsHostSpan(q.url, q.hs, q.he) && WalkSees(q.url, q.hs, q.he)
    ensures MatcherApplies(f, q) <==>
              && !f.dead && q.kind != Main
              && exists i :: ReadsName(q.url, q.hs, q.he, i, HostName(f))
  {
    HostWalkIsHostPattern(HostName(f), q.url, q.hs, q.he);
    ScanAgainstHits(Meaning(f), q.url, q.hs, q.he);
  }

  lemma AppliesIsFound(af: seq<Filter>, tokenHash: string -> nat, hostHash: string -> nat, q: Request, i: nat)
    requires Agreeable(af, tokenHash, hostHash, q) && i < |af| && af[i].host && MatcherApplies(af[i], q)
    ensures HostBlocked(af, HostMap(af, |af|, hostHash), hostHash, q)
  {
    var hosts := HostMap(af, |af|, hostHash);
    HostMapIsFirst(af, |af|, hostHash);
    assert Live(af[i]) && Parsed(af[i], tokenHash);
    HostRecordApplies(af[i], q);
    var l :| ReadsName(q.url, q.hs, q.he, l, HostName(af[i]));
    var first := hosts[NameKey(hostHash, af[i])];
    assert first == i || !af[first].dead;
    assert WalkFinds(af, hosts, hostHash, q, l);
  }

  lemma FoundApplies(af: seq<Filter>, tokenHash: string -> nat, hostHash: string -> nat, q: Request, l: nat)
    returns (i: nat)
    requires Agreeable(af, tokenHash, hostHash, q) && q.kind != Main
    requires WalkFinds(af, HostMap(af, |af|, hostHash), hostHash, q, l)
    ensures i < |af| && af[i].host && MatcherApplies(af[i], q)
  {
    HostMapIsFirst(af, |af|, hostHash);
    i := HostMap(af, |af|, hostHash)[hostHash(FoldAll(q.url[l..q.he]))];
    assert Live(af[i]) && Parsed(af[i], tokenHash);
    assert ReadsName(q.url, q.hs, q.he, l, HostName(af[i]));
    HostRecordApplies(af[i], q);
  }

  /** The host walk blocks exactly when some host record applies. */
  lemma HostSide(af: seq<Filter>, tokenHash: string -> nat, hostHash: string -> nat, q: Request)
    requires Agreeable(af, tokenHash, hostHash, q)
    ensures HostBlocked(af, HostMap(af, |af|, hostHash), hostHash, q) <==>
              exists i :: 0 <= i < |af| && af[i].host && MatcherApplies(af[i], q)
  {
    if i :| 0 <= i < |af| && af[i].host && MatcherApplies(af[i], q) {
      AppliesIsFound(af, tokenHash, hostHash, q, i);
    }
    if HostBlocked(af, HostMap(af, |af|, hostHash), hostHash, q) {
      var l :| WalkFinds(af, HostMap(af, |af|, hostHash), hostHash, q, l);
      var i := FoundApplies(af, tokenHash, hostHash, q, l);
    }
  }

  /** The indexed verdict is that of trying the matcher on every filter from every start. Collisions in
      the token buckets do not matter, and neither do end anchors. */
  lemma IndexedVerdictIsMatcher(af: seq<Filter>, tokenHash: string -> nat, hostHash: string -> nat, q: Request)
    requires Agreeable(af, tokenHash, hostHash, q)
    ensures IndexedAllows(af, HostMap(af, |af|, hostHash), tokenHash, hostHash, q) <==> MatcherAllows(af, q)
  {
    HostSide(af, tokenHash, hostHash, q);
    AllSides(af, tokenHash, hostHash, q);
    JoinSides(af, tokenHash, q, HostBlocked(af, HostMap(af, |af|, hostHash), hostHash, q));
  }

  /** A filter applies through the index or as a host record, and a host record only ever blocks. */
  ghost predicate SidesCover(f: Filter, hash: string -> nat, q: Request)
  {
    && (MatcherApplies(f, q) <==> Found(f, hash, q) || (f.host && MatcherApplies(f, q)))
    && (f.host && MatcherApplies(f, q) ==> !f.exc && !f.imp)
  }

  lemma FilterSide(f: Filter, hash: string -> nat, q: Request)
    requires (Live(f) ==> Parsed(f, hash)) && (Indexed(f) ==> Indexable(f.pattern))
    requires IsHostSpan(q.url, q.hs, q.he) && |LongRunsFrom(q.url, 0)| <= MAX_TOKENS
    ensures SidesCover(f, hash, q)
  {
    if Indexed(f) {
      TokenSide(f, hash, q);
    }
  }

  lemma AllSides(af: seq<Filter>, tokenHash: string -> nat, hostHash: string -> nat, q: Request)
    requires Agreeable(af, tokenHash, hostHash, q)
    ensures forall i :: 0 <= i < |af| ==> SidesCover(af[i], tokenHash, q)
  {
    forall i | 0 <= i < |af|
      ensures SidesCover(af[i], tokenHash, q)
    {
      FilterSide(af[i], tokenHash, q);
    }
  }

  lemma JoinSides(af: seq<Filter>, hash: string -> nat, q: Request, blocked: bool)
    requires forall i :: 0 <= i < |af| ==> SidesCover(af[i], hash, q)
    requires blocked <==> exists i :: 0 <= i < |af| && af[i].host && MatcherApplies(af[i], q)
    ensures MatcherAllows(af, q) <==> SplitAllows(af, hash, q, blocked)
  {
    assert forall i :: 0 <= i < |af| && Found(af[i], hash, q) ==> MatcherApplies(af[i], q);
    assert forall i :: 0 <= i < |af| && MatcherApplies(af[i], q) && !af[i].host ==> Found(af[i], hash, q);
  }

  /** The matcher's verdict is the declarative one when no live filter has a star before an end anchor. */
  lemma MatcherVerdictIsLinear(af: seq<Filter>, q: Request)
    requires EndsExactly(af)
    ensures MatcherAllows(af, q) <==> LinearAllows(af, q)
  {
    forall i | 0 <= i < |af|
      ensures MatcherApplies(af[i], q) <==> Applies(af[i], q)
    {
      ScanAgainstHits(Meaning(af[i]), q.url, q.hs, q.he);
    }
  }

  /** So the indexed verdict is the linear one. */
  lemma IndexedVerdictIsLinear(af: seq<Filter>, tokenHash: string -> nat, hostHash: string -> nat, q: Request)
    requires Agreeable(af, tokenHash, hostHash, q) && EndsExactly(af)
    ensures IndexedAllows(af, HostMap(af, |af|, hostHash), tokenHash, hostHash, q) <==> LinearAllows(af, q)
  {
    IndexedVerdictIsMatcher(af, tokenHash, hostHash, q);
    MatcherVerdictIsLinear(af, q);
  }
}
