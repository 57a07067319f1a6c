/** The engine itself: loading a list of parsed records, and the indexed verdict scan. */
module AblockEngine {
  import opened AblockChars
  import opened AblockToken
  import opened AblockHostSet
  import opened AblockIndex
  import opened AblockVerdict
  import opened AblockTheorem

  // ---- what a list of consulted filters amounts to ----

  /** `out` holds the outcome of each of the first `n` filters. */
  ghost predicate Judged(af: seq<Filter>, q: Request, out: seq<Outcome>, n: nat)
    requires n <= |af| == |out|
  {
    n == 0 || (Judged(af, q, out, n - 1) && out[n - 1] == OutcomeOf(af[n - 1], q))
  }

  ghost function OutcomeOf(f: Filter, q: Request): (r: Outcome)
  {
    if !EngineApplies(f, q) then NoMatch else if f.exc then Allow else Block
  }

  lemma {:induction false} JudgedAt(af: seq<Filter>, q: Request, out: seq<Outcome>, n: nat, i: nat)
    requires i < n <= |af| == |out| && Judged(af, q, out, n)
    ensures out[i] == OutcomeOf(af[i], q)
  {
    if i < n - 1 { JudgedAt(af, q, out, n - 1, i); }
  }

  lemma {:induction false} Judge(af: seq<Filter>, q: Request, n: nat) returns (out: seq<Outcome>)
    requires n <= |af|
    ensures |out| == |af| && Judged(af, q, out, n)
    ensures forall i :: n <= i < |af| ==> out[i] == NoMatch
  {
    if n == 0 {
      out := seq(|af|, i => NoMatch);
    } else {
      var o := Judge(af, q, n - 1);
      out := o[n - 1 := OutcomeOf(af[n - 1], q)];
      JudgedLocal(af, q, o, out, n - 1);
    }
  }

  lemma {:induction false} JudgedLocal(af: seq<Filter>, q: Request, out: seq<Outcome>, out': seq<Outcome>, n: nat)
    requires n <= |af| == |out| == |out'| && Judged(af, q, out, n) && out[..n] == out'[..n]
    ensures Judged(af, q, out', n)
  {
    if n > 0 {
      assert out[..n][n - 1] == out'[..n][n - 1];
      assert out[..n][..n - 1] == out[..n - 1] && out'[..n][..n - 1] == out'[..n - 1];
      JudgedLocal(af, q, out, out', n - 1);
    }
  }

  ghost predicate AnyImportant(af: seq<Filter>, out: seq<Outcome>, l: seq<nat>)
  {
    exists i :: i in l && i < |af| && i < |out| && out[i] == Block && af[i].imp
  }

  ghost predicate AnyOutcome(out: seq<Outcome>, l: seq<nat>, v: Outcome)
  {
    exists i :: i in l && i < |out| && out[i] == v
  }

  /** The scan's flags after consulting `l` without meeting an important block. */
  ghost predicate Tallied(af: seq<Filter>, out: seq<Outcome>, l: seq<nat>, allowed: bool, blocked: bool)
  {
    !AnyImportant(af, out, l) && allowed == AnyOutcome(out, l, Allow) && blocked == AnyOutcome(out, l, Block)
  }

  lemma TallyJoins(af: seq<Filter>, out: seq<Outcome>, l: seq<nat>, m: seq<nat>)
    ensures AnyImportant(af, out, l + m) <==> AnyImportant(af, out, l) || AnyImportant(af, out, m)
    ensures forall v :: AnyOutcome(out, l + m, v) <==> AnyOutcome(out, l, v) || AnyOutcome(out, m, v)
  {
  }

  /** `l` is exactly what the runs `seen` lead to. */
  ghost predicate LookedUp(af: seq<Filter>, u: string, hash: string -> nat, seen: seq<(nat, nat)>, l: seq<nat>)
  {
    forall i: nat :: i in l <==>
      i < |af| && Indexed(af[i]) && af[i].thash != 0 && KeyedBy(u, hash, seen, af[i].thash % BUCKETS)
  }

  /** The scan has consulted exactly what the runs `seen` lead to, with these flags. */
  ghost predicate Consults(af: seq<Filter>, out: seq<Outcome>, u: string, hash: string -> nat,
                           seen: seq<(nat, nat)>, l: seq<nat>, allowed: bool, blocked: bool)
  {
    LookedUp(af, u, hash, seen, l) && Tallied(af, out, l, allowed, blocked)
  }

  ghost predicate KeyedBy(u: string, hash: string -> nat, seen: seq<(nat, nat)>, b: nat)
  {
    exists r :: r in seen && RunKeyed(u, r, hash, b)
  }

  lemma LookUpOne(af: seq<Filter>, u: string, hash: string -> nat, seen: seq<(nat, nat)>, l: seq<nat>,
                  r: (nat, nat), b: nat)
    requires LookedUp(af, u, hash, seen, l) && r.0 <= r.1 <= |u| && b == TokenKey(hash, u[r.0..r.1]) % BUCKETS
    ensures LookedUp(af, u, hash, seen + [r], l + Members(af, |af|, b))
  {
    MembersAreExact(af, |af|, b);
    forall c ensures KeyedBy(u, hash, seen + [r], c) <==> KeyedBy(u, hash, seen, c) || c == b {
      if c == b { assert r in seen + [r] && RunKeyed(u, r, hash, b); }
      if KeyedBy(u, hash, seen, c) {
        var s :| s in seen && RunKeyed(u, s, hash, c);
        assert s in seen + [r];
      }
    }
  }

  lemma TallyOne(af: seq<Filter>, out: seq<Outcome>, l: seq<nat>, i: nat, allowed: bool, blocked: bool)
    requires i < |af| == |out| && Tallied(af, out, l, allowed, blocked)
    ensures out[i] == Block && af[i].imp ==> AnyImportant(af, out, l + [i])
    ensures !(out[i] == Block && af[i].imp) ==>
              Tallied(af, out, l + [i], allowed || out[i] == Allow, blocked || out[i] == Block)
  {
    assert i in l + [i];
    assert forall k :: k in l + [i] <==> k in l || k == i;
  }

  lemma ImportantIn(af: seq<Filter>, out: seq<Outcome>, l: seq<nat>, k: nat)
    requires k < |l| && l[k] < |af| == |out| && out[l[k]] == Block && af[l[k]].imp
    ensures AnyImportant(af, out, l)
  {
    assert l[k] in l;
  }

  /** `eval_filter` on record `i`. */
  method EvalAt(af: array<Filter>, i: nat, q: Request, ghost out: seq<Outcome>) returns (v: Outcome)
    requires SpanInside(q) && i < af.Length == |out| && Evaluable(af[i], q) && Judged(af[..], q, out, af.Length)
    ensures v == out[i]
  {
    JudgedAt(af[..], q, out, af.Length, i);
    v := EvalFilter(af[i], q);
  }

  /** Consult items[lo..hi]; an important block ends the scan. */
  method ScanList(af: array<Filter>, items: array<nat>, lo: nat, hi: nat, q: Request, ghost out: seq<Outcome>)
    returns (important: bool, allowed: bool, blocked: bool)
    requires SpanInside(q) && lo <= hi <= items.Length && af.Length == |out| && Judged(af[..], q, out, af.Length)
    requires forall k :: lo <= k < hi ==> items[k] < af.Length && Evaluable(af[items[k]], q)
    ensures important == AnyImportant(af[..], out, items[lo..hi])
    ensures !important ==> Tallied(af[..], out, items[lo..hi], allowed, blocked)
  {
    important, allowed, blocked := false, false, false;
    for k := lo to hi
      invariant Tallied(af[..], out, items[lo..k], allowed, blocked)
    {
      var v := EvalAt(af, items[k], q, out);
      assert items[lo..k + 1] == items[lo..k] + [items[k]];
      TallyOne(af[..], out, items[lo..k], items[k], allowed, blocked);
      if v == Allow {
        allowed := true;
      } else if v == Block {
        if af[items[k]].imp {
          ImportantIn(af[..], out, items[lo..hi], k - lo);
          return true, allowed, blocked;
        }
        blocked := true;
      }
    }
  }

  /** One parsed record enters the host set if it is a host rule. */
  method AddRecord(names: HostSet, f: Filter, i: nat, hash: string -> nat)
    requires names.Valid()
    modifies names, names.table
    ensures names.Valid() && (names.table == old(names.table) || fresh(names.table))
    ensures names.Contents == if f.host && NameKey(hash, f) != 0 && NameKey(hash, f) !in old(names.Contents)
                              then old(names.Contents)[NameKey(hash, f) := i] else old(names.Contents)
  {
    if f.host {
      names.Put(hash(FoldAll(HostName(f))), i);
    }
  }

  /** The records with the badfilter pass done, and the host set of their names. */
  method LoadRecords(list: seq<Filter>, hostHash: string -> nat) returns (records: array<Filter>, names: HostSet)
    requires NoneDead(list)
    ensures fresh(records) && records[..] == AfterBadfilters(list, |list|)
    ensures fresh(names) && fresh(names.table) && names.Valid()
    ensures names.Contents == HostMap(records[..], |list|, hostHash)
  {
    names := LoadHosts(list, hostHash);
    records := new Filter[|list|](i requires 0 <= i < |list| => list[i]);
    assert records[..] == list;
    MarkDead(records);
    HostMapIgnoresDeath(list, records[..], |list|, hostHash);
  }

  /** The parser's insertions into the host set. */
  method LoadHosts(list: seq<Filter>, hash: string -> nat) returns (names: HostSet)
    ensures fresh(names) && fresh(names.table) && names.Valid()
    ensures names.Contents == HostMap(list, |list|, hash)
  {
    names := new HostSet();
    for i := 0 to |list|
      invariant fresh(names) && fresh(names.table) && names.Valid()
      invariant names.Contents == HostMap(list, i, hash)
    {
      AddRecord(names, list[i], i, hash);
    }
  }

  class Engine {
    const tokenHash: string -> nat
    const hostHash: string -> nat
    const af: array<Filter>
    const boff: array<nat>
    const bitems: array<nat>
    const tokless: array<nat>
    const hosts: HostSet

    ghost predicate Valid()
      reads this, af, boff, bitems, tokless, hosts, hosts.table
    {
      && hosts.Valid()
      && hosts.Contents == HostMap(af[..], af.Length, hostHash)
      && IndexHolds(af[..], boff[..], bitems[..], tokless[..])
    }

    /** Feed the parsed records: host names enter the host set as they come, then the badfilter pass
        and the token index run once. */
    constructor (list: seq<Filter>, tokenHash: string -> nat, hostHash: string -> nat)
      requires NoneDead(list)
      ensures Valid() && this.tokenHash == tokenHash && this.hostHash == hostHash
      ensures af[..] == AfterBadfilters(list, |list|)
    {
      var records, names := LoadRecords(list, hostHash);
      var o, b, t := BuildIndex(records[..]);
      this.tokenHash, this.hostHash := tokenHash, hostHash;
      af, boff, bitems, tokless, hosts := records, o, b, t, names;
    }

    /** No evaluation of a request meets the matcher's step limit. */
    ghost predicate Ready(q: Request)
      reads this, af
    {
      SpanInside(q) && forall i :: 0 <= i < af.Length && Indexed(af[i]) ==> Evaluable(af[i], q)
    }

    /** Walk the labels of the host, longest name first. */
    method WalkHosts(q: Request) returns (blocked: bool)
      requires hosts.Valid() && SpanInside(q)
      requires forall k :: k in hosts.Contents ==> 0 <= hosts.Contents[k] < af.Length
      ensures blocked == exists i :: WalkFinds(af[..], hosts.Contents, hostHash, q, i)
    {
      var i := q.hs;
      while i < q.he
        invariant q.hs <= i <= q.he
        invariant forall k: nat :: k < i ==> !WalkFinds(af[..], hosts.Contents, hostHash, q, k)
      {
        if i == q.hs || q.url[i - 1] == '.' {
          var fi := hosts.Has(hostHash(FoldAll(q.url[i..q.he])));
          if fi >= 0 && !af[fi].dead {
            assert WalkFinds(af[..], hosts.Contents, hostHash, q, i);
            return true;
          }
        }
        i := i + 1;
      }
      return false;
    }

    /** Consult the bucket of the run u[i..j]. */
    method ScanRun(q: Request, ghost out: seq<Outcome>, i: nat, j: nat, ghost seen: seq<(nat, nat)>,
                   ghost l: seq<nat>, allowed: bool, blocked: bool)
      returns (important: bool, allowed': bool, blocked': bool, ghost l': seq<nat>)
      requires IndexHolds(af[..], boff[..], bitems[..], tokless[..]) && Ready(q) && i <= j <= |q.url|
      requires af.Length == |out| && Judged(af[..], q, out, af.Length)
      requires Consults(af[..], out, q.url, tokenHash, seen, l, allowed, blocked)
      ensures important ==> AnyImportant(af[..], out, l') && LookedUp(af[..], q.url, tokenHash, seen + [(i, j)], l')
      ensures !important ==> Consults(af[..], out, q.url, tokenHash, seen + [(i, j)], l', allowed', blocked')
    {
      var b := TokenKey(tokenHash, q.url[i..j]) % BUCKETS;
      LookUpOne(af[..], q.url, tokenHash, seen, l, (i, j), b);
      BucketIsEvaluable(q, b);
      var al, bl;
      important, al, bl := ScanList(af, bitems, boff[b], boff[b + 1], q, out);
      TallyJoins(af[..], out, l, bitems[boff[b]..boff[b + 1]]);
      allowed', blocked' := allowed || al, blocked || bl;
      l' := l + Members(af[..], af.Length, b);
    }

    /** Consult the bucket of every scanned run. */
    method ScanTokens(q: Request, ghost out: seq<Outcome>)
      returns (important: bool, allowed: bool, blocked: bool, ghost seen: seq<(nat, nat)>, ghost l: seq<nat>)
      requires IndexHolds(af[..], boff[..], bitems[..], tokless[..]) && Ready(q)
      requires af.Length == |out| && Judged(af[..], q, out, af.Length)
      ensures important ==> AnyImportant(af[..], out, l) && LookedUp(af[..], q.url, tokenHash, seen, l)
      ensures seen <= ScannedRuns(q.url) && (!important ==> seen == ScannedRuns(q.url))
      ensures !important ==> Consults(af[..], out, q.url, tokenHash, seen, l, allowed, blocked)
    {
      important, allowed, blocked, l, seen := false, false, false, [], [];
      var ntok, i := 0, 0;
      while i < |q.url| && ntok < MAX_TOKENS
        invariant 0 <= ntok <= MAX_TOKENS && Scanning(q.url, i, ntok, seen)
        invariant Consults(af[..], out, q.url, tokenHash, seen, l, allowed, blocked)
        decreases |q.url| - i
      {
        if !IsTokenChar(q.url[i]) {
          i := i + 1;
          continue;
        }
        var j := RunEnd(q.url, i);
        ScanningStep(q.url, i, j, ntok, seen);
        if j - i >= 3 {
          ntok := ntok + 1;
          important, allowed, blocked, l := ScanRun(q, out, i, j, seen, l, allowed, blocked);
          seen := seen + [(i, j)];
          if important {
            SeenIsScanned(q.url, seen, j);
            return;
          }
        }
        i := j;
      }
      SeenIsScanned(q.url, seen, i);
    }

    /** `allows_int`: true lets the request through. */
    method Allows(q: Request) returns (allow: bool)
      requires Valid() && Ready(q)
      ensures allow == IndexedAllows(af[..], hosts.Contents, tokenHash, hostHash, q)
      ensures Agreeable(af[..], tokenHash, hostHash, q) ==> allow == MatcherAllows(af[..], q)
      ensures Agreeable(af[..], tokenHash, hostHash, q) && EndsExactly(af[..]) ==> allow == LinearAllows(af[..], q)
    {
      allow := Scan(q);
      if Agreeable(af[..], tokenHash, hostHash, q) {
        IndexedVerdictIsMatcher(af[..], tokenHash, hostHash, q);
        if EndsExactly(af[..]) {
          MatcherVerdictIsLinear(af[..], q);
        }
      }
    }

    method Scan(q: Request) returns (allow: bool)
      requires Valid() && Ready(q)
      ensures allow == IndexedAllows(af[..], hosts.Contents, tokenHash, hostHash, q)
    {
      var hostHit := false;
      if q.kind != Main {
        HostMapIsFirst(af[..], af.Length, hostHash);
        hostHit := WalkHosts(q);
      }
      assert hostHit == HostBlocked(af[..], hosts.Contents, hostHash, q);
      ghost var out := Judge(af[..], q, af.Length);
      var important, allowed, blocked, found := ScanIndex(q, out);
      Settle(af[..], out, tokenHash, q, found, hostHit);
      if important { return false; }
      return if allowed then true else !(hostHit || blocked);
    }

    /** Buckets first, then the tokenless list; an important block ends the scan. */
    method ScanIndex(q: Request, ghost out: seq<Outcome>)
      returns (important: bool, allowed: bool, blocked: bool, ghost l: seq<nat>)
      requires IndexHolds(af[..], boff[..], bitems[..], tokless[..]) && Ready(q)
      requires af.Length == |out| && Judged(af[..], q, out, af.Length)
      ensures forall i :: i in l ==> i < af.Length && Consulted(af[i], q.url, tokenHash)
      ensures important ==> AnyImportant(af[..], out, l)
      ensures !important ==> Tallied(af[..], out, l, allowed, blocked)
      ensures !important ==> forall i :: 0 <= i < af.Length && Consulted(af[i], q.url, tokenHash) ==> i in l
    {
      ghost var seen;
      important, allowed, blocked, seen, l := ScanTokens(q, out);
      LookedUpAreConsulted(af[..], q.url, tokenHash, seen, l);
      if important { return; }
      TokenlessIsEvaluable(q);
      var al, bl;
      important, al, bl := ScanList(af, tokless, 0, tokless.Length, q, out);
      ghost var rest := tokless[0..tokless.Length];
      assert rest == tokless[..];
      TallyJoins(af[..], out, l, rest);
      AllConsulted(af[..], q.url, tokenHash, l, rest);
      l := l + rest;
      allowed, blocked := allowed || al, blocked || bl;
    }

    lemma TokenlessIsEvaluable(q: Request)
      requires IndexHolds(af[..], boff[..], bitems[..], tokless[..]) && Ready(q)
      ensures tokless[..] == Members(af[..], af.Length, BUCKETS)
      ensures forall k :: 0 <= k < tokless.Length ==> tokless[k] < af.Length && Evaluable(af[tokless[k]], q)
    {
      MembersAreExact(af[..], af.Length, BUCKETS);
      forall k | 0 <= k < tokless.Length
        ensures tokless[k] < af.Length && Evaluable(af[tokless[k]], q)
      {
        assert tokless[..][k] in Members(af[..], af.Length, BUCKETS);
      }
    }

    lemma BucketIsEvaluable(q: Request, b: nat)
      requires IndexHolds(af[..], boff[..], bitems[..], tokless[..]) && Ready(q) && b < BUCKETS
      ensures boff[b] <= boff[b + 1] <= bitems.Length && bitems[boff[b]..boff[b + 1]] == Members(af[..], af.Length, b)
      ensures forall k :: boff[b] <= k < boff[b + 1] ==> bitems[k] < af.Length && Evaluable(af[bitems[k]], q)
    {
      assert BucketHolds(af[..], boff[..][b], boff[..][b + 1], bitems[..], b);
      MembersAreExact(af[..], af.Length, b);
      var l := bitems[boff[b]..boff[b + 1]];
      forall k | boff[b] <= k < boff[b + 1]
        ensures bitems[k] < af.Length && Evaluable(af[bitems[k]], q)
      {
        assert l[k - boff[b]] in Members(af[..], af.Length, b);
      }
    }
  }

  lemma LookedUpAreConsulted(af: seq<Filter>, u: string, hash: string -> nat, seen: seq<(nat, nat)>, l: seq<nat>)
    requires LookedUp(af, u, hash, seen, l) && seen <= ScannedRuns(u)
    ensures forall i :: i in l ==> i < |af| && Consulted(af[i], u, hash)
  {
    forall i | i in l
      ensures i < |af| && Consulted(af[i], u, hash)
    {
      var r :| r in seen && RunKeyed(u, r, hash, af[i].thash % BUCKETS);
      assert r in ScannedRuns(u);
    }
  }

  /** Buckets of the scanned runs plus the tokenless list: exactly the consulted filters. */
  lemma AllConsulted(af: seq<Filter>, u: string, hash: string -> nat, l: seq<nat>, rest: seq<nat>)
    requires LookedUp(af, u, hash, ScannedRuns(u), l) && rest == Members(af, |af|, BUCKETS)
    ensures forall i :: i in l + rest ==> i < |af| && Consulted(af[i], u, hash)
    ensures forall i :: 0 <= i < |af| && Consulted(af[i], u, hash) ==> i in l + rest
  {
    MembersAreExact(af, |af|, BUCKETS);
    LookedUpAreConsulted(af, u, hash, ScannedRuns(u), l);
    forall i | 0 <= i < |af| && Consulted(af[i], u, hash)
      ensures i in l + rest
    {
      if af[i].thash != 0 {
        assert KeyedBy(u, hash, ScannedRuns(u), af[i].thash % BUCKETS);
      }
    }
  }

  /** Outcomes of the consulted filters are what the indexed verdict speaks of. */
  lemma Settle(af: seq<Filter>, out: seq<Outcome>, hash: string -> nat, q: Request, l: seq<nat>, blocked: bool)
    requires |af| == |out| && Judged(af, q, out, |af|)
    requires forall i :: i in l ==> i < |af| && Consulted(af[i], q.url, hash)
    ensures AnyImportant(af, out, l) ==> !SplitAllows(af, hash, q, blocked)
    ensures (forall i :: 0 <= i < |af| && Consulted(af[i], q.url, hash) ==> i in l) ==>
              (SplitAllows(af, hash, q, blocked) <==>
                && !AnyImportant(af, out, l)
                && (AnyOutcome(out, l, Allow) || !(blocked || AnyOutcome(out, l, Block))))
  {
    forall i | 0 <= i < |af|
      ensures out[i] == OutcomeOf(af[i], q)
    {
      JudgedAt(af, q, out, |af|, i);
    }
    assert forall i :: i in l ==> (Found(af[i], hash, q) <==> out[i] != NoMatch);
  }

  /** The run scan stands at `i` having met the long runs `seen`. */
  ghost predicate Scanning(u: string, i: int, ntok: nat, seen: seq<(nat, nat)>)
  {
    0 <= i <= |u| && Boundary(u, i) && |seen| == ntok && seen + LongRunsFrom(u, i) == LongRunsFrom(u, 0)
  }

  lemma ScanningStep(u: string, i: nat, j: nat, ntok: nat, seen: seq<(nat, nat)>)
    requires Scanning(u, i, ntok, seen) && IsRun(u, i, j)
    ensures if j - i >= 3 then Scanning(u, j, ntok + 1, seen + [(i, j)]) else Scanning(u, j, ntok, seen)
  {
    SameEnd(u, i, j);
    assert (seen + [(i, j)]) + LongRunsFrom(u, j) == seen + ([(i, j)] + LongRunsFrom(u, j));
  }

  lemma SameEnd(u: string, i: nat, j: nat)
    requires IsRun(u, i, j)
    ensures j == EndOfRun(u, i)
  {
  }

  /** Runs processed so far are the scanned runs once the scan stops, and among them before. */
  lemma SeenIsScanned(u: string, seen: seq<(nat, nat)>, i: nat)
    requires i <= |u| && seen + LongRunsFrom(u, i) == LongRunsFrom(u, 0) && |seen| <= MAX_TOKENS
    ensures seen <= ScannedRuns(u)
    ensures i == |u| || |seen| == MAX_TOKENS ==> seen == ScannedRuns(u)
  {
  }
}
