/** Filter records, `$badfilter`, and the counting-sort token index. */
module AblockIndex {
  import opened AblockPattern

  datatype Kind = Main | Frame | Css | Img | Script | Xhr | Font | Media | Other

  datatype Domain = Domain(name: string, neg: bool)

  /** One network filter. `types` empty means untyped, `thash` zero means tokenless. */
  datatype Filter = Filter(
    pattern: Pattern, types: set<Kind>, doms: seq<Domain>, thash: nat,
    exc: bool, imp: bool, thirdOnly: bool, firstOnly: bool, redir: bool, bf: bool, host: bool, dead: bool)

  // ---- $badfilter ----

  /** `bf_same`: equal in everything but the badfilter and host-set marks. */
  predicate SameRule(a: Filter, b: Filter)
  {
    && a.pattern.text == b.pattern.text && a.pattern.anchor == b.pattern.anchor && a.pattern.enda == b.pattern.enda
    && a.types == b.types && a.doms == b.doms
    && a.exc == b.exc && a.imp == b.imp && a.thirdOnly == b.thirdOnly && a.firstOnly == b.firstOnly
    && a.redir == b.redir && a.dead == b.dead
  }

  /** One of the first `n` records is a badfilter naming filter `j`. */
  predicate NamedBad(af: seq<Filter>, n: nat, j: nat)
    requires n <= |af| && j < |af|
  {
    !af[j].bf && exists i :: 0 <= i < n && af[i].bf && SameRule(af[i], af[j])
  }

  ghost predicate NoneDead(af: seq<Filter>) { forall j :: 0 <= j < |af| ==> !af[j].dead }

  /** The records with the named ones marked dead. */
  ghost function AfterBadfilters(af: seq<Filter>, n: nat): (r: seq<Filter>)
    requires n <= |af|
    ensures |r| == |af|
    ensures forall j :: 0 <= j < |af| ==> r[j] == af[j].(dead := NamedBad(af, n, j))
  {
    seq(|af|, j requires 0 <= j < |af| => af[j].(dead := NamedBad(af, n, j)))
  }

  /** The badfilter pass: a filter dies exactly when some badfilter record is the same rule. */
  method MarkDead(af: array<Filter>)
    requires NoneDead(af[..])
    modifies af
    ensures af[..] == AfterBadfilters(old(af[..]), af.Length)
  {
    ghost var was := af[..];
    for i := 0 to af.Length
      invariant forall j :: 0 <= j < af.Length ==> af[j] == was[j].(dead := NamedBad(was, i, j))
    {
      if af[i].bf {
        for j := 0 to af.Length
          invariant af[i] == was[i]
          invariant forall k :: 0 <= k < j ==> af[k] == was[k].(dead := NamedBad(was, i + 1, k))
          invariant forall k :: j <= k < af.Length ==> af[k] == was[k].(dead := NamedBad(was, i, k))
        {
          NamedStep(was, i, j);
          if j != i && !af[j].bf && !af[j].dead && SameRule(af[i], af[j]) {
            af[j] := af[j].(dead := true);
          }
        }
      } else {
        forall j | 0 <= j < af.Length ensures NamedBad(was, i + 1, j) == NamedBad(was, i, j) {
          NamedStep(was, i, j);
        }
      }
    }
  }

  lemma NamedStep(af: seq<Filter>, i: nat, j: nat)
    requires i < |af| && j < |af|
    ensures NamedBad(af, i + 1, j) <==> NamedBad(af, i, j) || (!af[j].bf && af[i].bf && SameRule(af[i], af[j]))
  {
  }

  // ---- the token index ----

  const BUCKETS := 65536

  /** Filters the token index carries; host rules live in the host set. */
  predicate Indexed(f: Filter) { !f.dead && !f.bf && !f.host }

  /** The list a filter belongs to: its bucket, the tokenless list (number BUCKETS), or none (-1). */
  function ListKey(f: Filter): (k: int)
  {
    if !Indexed(f) then -1 else if f.thash == 0 then BUCKETS else f.thash % BUCKETS
  }

  /** Indices of the filters of list `k` among the first `n`, in list order. */
  ghost function Members(af: seq<Filter>, n: nat, k: nat): (r: seq<nat>)
    requires n <= |af|
  {
    if n == 0 then [] else Members(af, n - 1, k) + (if ListKey(af[n - 1]) == k then [n - 1] else [])
  }

  /** Where bucket `k` starts in the item array. */
  ghost function Start(af: seq<Filter>, n: nat, k: nat): (r: nat)
    requires n <= |af|
  {
    if k == 0 then 0 else Start(af, n, k - 1) + |Members(af, n, k - 1)|
  }

  /** A list holds exactly its filters, each once, in list order. */
  lemma {:induction false} MembersAreExact(af: seq<Filter>, n: nat, k: nat)
    requires n <= |af|
    ensures forall i :: i in Members(af, n, k) <==> 0 <= i < n && ListKey(af[i]) == k
    ensures forall s, t :: 0 <= s < t < |Members(af, n, k)| ==> Members(af, n, k)[s] < Members(af, n, k)[t]
  {
    if n > 0 {
      MembersAreExact(af, n - 1, k);
      var l := Members(af, n - 1, k);
      assert forall s :: 0 <= s < |l| ==> l[s] in l;
    }
  }

  lemma {:induction false} StartIsMonotone(af: seq<Filter>, n: nat, j: nat, k: nat)
    requires n <= |af| && j <= k
    ensures Start(af, n, j) <= Start(af, n, k)
    decreases k
  {
    if j < k { StartIsMonotone(af, n, j, k - 1); }
  }

  /** One more filter moves the starts above its bucket by one. */
  lemma {:induction false} StartOfOneMore(af: seq<Filter>, n: nat, k: nat)
    requires n < |af|
    ensures Start(af, n + 1, k) == Start(af, n, k) + (if 0 <= ListKey(af[n]) < k then 1 else 0)
  {
    if k > 0 { StartOfOneMore(af, n, k - 1); }
  }

  lemma {:induction false} StartOfNone(af: seq<Filter>, k: nat)
    ensures Start(af, 0, k) == 0
  {
    if k > 0 { StartOfNone(af, k - 1); }
  }

  lemma {:induction false} MembersGrow(af: seq<Filter>, m: nat, n: nat, k: nat)
    requires m <= n <= |af|
    ensures Members(af, m, k) <= Members(af, n, k)
    decreases n
  {
    if m < n { MembersGrow(af, m, n - 1, k); }
  }

  /** Pass one: per-bucket counts, one place up, and the two totals. */
  method CountBuckets(af: seq<Filter>) returns (boff: array<nat>, nitems: nat, ntokless: nat)
    ensures fresh(boff) && boff.Length == BUCKETS + 1 && boff[0] == 0
    ensures forall k :: 1 <= k <= BUCKETS ==> boff[k] == |Members(af, |af|, k - 1)|
    ensures nitems == Start(af, |af|, BUCKETS) && ntokless == |Members(af, |af|, BUCKETS)|
  {
    boff := new nat[BUCKETS + 1](_ => 0);
    nitems, ntokless := 0, 0;
    StartOfNone(af, BUCKETS);
    for i := 0 to |af|
      invariant boff[0] == 0
      invariant forall k :: 1 <= k <= BUCKETS ==> boff[k] == |Members(af, i, k - 1)|
      invariant nitems == Start(af, i, BUCKETS) && ntokless == |Members(af, i, BUCKETS)|
    {
      StartOfOneMore(af, i, BUCKETS);
      if Indexed(af[i]) {
        if af[i].thash == 0 {
          ntokless := ntokless + 1;
        } else {
          var b := af[i].thash % BUCKETS;
          boff[b + 1] := boff[b + 1] + 1;
          nitems := nitems + 1;
        }
      }
    }
  }

  /** Prefix sums turn the counts into bucket starts. */
  method SumOffsets(af: seq<Filter>, boff: array<nat>)
    requires boff.Length == BUCKETS + 1 && boff[0] == 0
    requires forall k :: 1 <= k <= BUCKETS ==> boff[k] == |Members(af, |af|, k - 1)|
    modifies boff
    ensures forall k :: 0 <= k <= BUCKETS ==> boff[k] == Start(af, |af|, k)
  {
    var k := 1;
    while k <= BUCKETS
      invariant 1 <= k <= BUCKETS + 1
      invariant forall j :: 0 <= j < k ==> boff[j] == Start(af, |af|, j)
      invariant forall j :: k <= j <= BUCKETS ==> boff[j] == |Members(af, |af|, j - 1)|
    {
      boff[k] := boff[k] + boff[k - 1];
      k := k + 1;
    }
  }

  /** The first `i` filters have been placed: each bucket's cursor is past exactly its items. */
  ghost predicate Placed(af: seq<Filter>, i: nat, cur: seq<nat>, bitems: seq<nat>)
  {
    && i <= |af| && |cur| == BUCKETS + 1
    && forall b :: 0 <= b < BUCKETS ==> BucketPlaced(af, i, cur[b], bitems, b)
  }

  ghost predicate BucketPlaced(af: seq<Filter>, i: nat, cur: nat, bitems: seq<nat>, b: nat)
    requires i <= |af|
  {
    && cur == Start(af, |af|, b) + |Members(af, i, b)| <= |bitems|
    && bitems[Start(af, |af|, b)..cur] == Members(af, i, b)
  }

  /** Placing filter `i` at its bucket's cursor disturbs no other bucket. */
  lemma PlaceOne(af: seq<Filter>, i: nat, cur: seq<nat>, bitems: seq<nat>, b: nat)
    requires i < |af| && Placed(af, i, cur, bitems) && b < BUCKETS && ListKey(af[i]) == b
    requires |bitems| == Start(af, |af|, BUCKETS)
    ensures cur[b] < |bitems| && Placed(af, i + 1, cur[b := cur[b] + 1], bitems[cur[b] := i])
  {
    Room(af, i, b, b);
    StartIsMonotone(af, |af|, b + 1, BUCKETS);
    assert BucketPlaced(af, i, cur[b], bitems, b);
    var cur', bitems' := cur[b := cur[b] + 1], bitems[cur[b] := i];
    forall c: nat | c < BUCKETS
      ensures BucketPlaced(af, i + 1, cur'[c], bitems', c)
    {
      PlaceInBucket(af, i, cur, bitems, b, c);
    }
  }

  lemma PlaceInBucket(af: seq<Filter>, i: nat, cur: seq<nat>, bitems: seq<nat>, b: nat, c: nat)
    requires i < |af| && Placed(af, i, cur, bitems) && b < BUCKETS && c < BUCKETS && ListKey(af[i]) == b
    requires cur[b] < |bitems|
    ensures BucketPlaced(af, i + 1, cur[b := cur[b] + 1][c], bitems[cur[b] := i], c)
  {
    assert BucketPlaced(af, i, cur[b], bitems, b) && BucketPlaced(af, i, cur[c], bitems, c);
    if c == b {
      PlaceHere(af, i, cur[b], bitems, b);
    } else {
      PlaceElsewhere(af, i, cur[b], bitems, b, cur[c], c);
    }
  }

  lemma PlaceHere(af: seq<Filter>, i: nat, at: nat, bitems: seq<nat>, b: nat)
    requires i < |af| && ListKey(af[i]) == b && BucketPlaced(af, i, at, bitems, b) && at < |bitems|
    ensures BucketPlaced(af, i + 1, at + 1, bitems[at := i], b)
  {
    var lo := Start(af, |af|, b);
    assert bitems[at := i][lo..at + 1] == bitems[lo..at] + [i];
  }

  lemma PlaceElsewhere(af: seq<Filter>, i: nat, at: nat, bitems: seq<nat>, b: nat, cur: nat, c: nat)
    requires i < |af| && ListKey(af[i]) == b && BucketPlaced(af, i, at, bitems, b) && at < |bitems|
    requires c != b && BucketPlaced(af, i, cur, bitems, c)
    ensures BucketPlaced(af, i + 1, cur, bitems[at := i], c)
  {
    Room(af, i, b, c);
    var lo := Start(af, |af|, c);
    assert bitems[at := i][lo..cur] == bitems[lo..cur];
  }

  /** Room in bucket `b` for filter `i`, and none of it taken from bucket `c`. */
  lemma Room(af: seq<Filter>, i: nat, b: nat, c: nat)
    requires i < |af| && ListKey(af[i]) == b
    ensures Start(af, |af|, b) + |Members(af, i, b)| < Start(af, |af|, b + 1)
    ensures c < b ==> Start(af, |af|, c) + |Members(af, i, c)| <= Start(af, |af|, b)
    ensures b < c ==> Start(af, |af|, b + 1) <= Start(af, |af|, c)
  {
    MembersGrow(af, i + 1, |af|, b);
    MembersGrow(af, i, |af|, c);
    if c < b { StartIsMonotone(af, |af|, c + 1, b); }
    if b < c { StartIsMonotone(af, |af|, b + 1, c); }
  }

  lemma SkipOne(af: seq<Filter>, i: nat, cur: seq<nat>, bitems: seq<nat>)
    requires i < |af| && Placed(af, i, cur, bitems) && (ListKey(af[i]) < 0 || ListKey(af[i]) >= BUCKETS)
    ensures Placed(af, i + 1, cur, bitems)
  {
    forall b | 0 <= b < BUCKETS
      ensures BucketPlaced(af, i + 1, cur[b], bitems, b)
    {
      assert BucketPlaced(af, i, cur[b], bitems, b);
    }
  }

  lemma BucketEmpty(af: seq<Filter>, cur: nat, bitems: seq<nat>, b: nat)
    requires b < BUCKETS && cur == Start(af, |af|, b) && |bitems| == Start(af, |af|, BUCKETS)
    ensures BucketPlaced(af, 0, cur, bitems, b)
  {
    StartIsMonotone(af, |af|, b, BUCKETS);
    assert Members(af, 0, b) == [];
    assert bitems[cur..cur] == [];
  }

  lemma PlacedNone(af: seq<Filter>, cur: seq<nat>, bitems: seq<nat>)
    requires |cur| == BUCKETS + 1 && |bitems| == Start(af, |af|, BUCKETS)
    requires forall k :: 0 <= k <= BUCKETS ==> cur[k] == Start(af, |af|, k)
    ensures Placed(af, 0, cur, bitems)
  {
    forall b | 0 <= b < BUCKETS
      ensures BucketPlaced(af, 0, cur[b], bitems, b)
    {
      BucketEmpty(af, cur[b], bitems, b);
    }
  }

  /** What the finished index says: monotone offsets, and every list exact. */
  ghost predicate IndexHolds(af: seq<Filter>, boff: seq<nat>, bitems: seq<nat>, tokless: seq<nat>)
  {
    && |boff| == BUCKETS + 1
    && (forall b :: 0 <= b < BUCKETS ==> BucketHolds(af, boff[b], boff[b + 1], bitems, b))
    && tokless == Members(af, |af|, BUCKETS)
  }

  ghost predicate BucketHolds(af: seq<Filter>, lo: nat, hi: nat, bitems: seq<nat>, b: nat)
  {
    lo <= hi <= |bitems| && bitems[lo..hi] == Members(af, |af|, b)
  }

  lemma BucketFull(af: seq<Filter>, lo: nat, hi: nat, cur: nat, bitems: seq<nat>, b: nat)
    requires b < BUCKETS && lo == Start(af, |af|, b) && hi == Start(af, |af|, b + 1)
    requires BucketPlaced(af, |af|, cur, bitems, b)
    ensures BucketHolds(af, lo, hi, bitems, b)
  {
    assert hi == cur;
  }

  lemma PlacedAll(af: seq<Filter>, boff: seq<nat>, cur: seq<nat>, bitems: seq<nat>)
    requires |boff| == BUCKETS + 1 && Placed(af, |af|, cur, bitems)
    requires forall k :: 0 <= k <= BUCKETS ==> boff[k] == Start(af, |af|, k)
    ensures forall b :: 0 <= b < BUCKETS ==> BucketHolds(af, boff[b], boff[b + 1], bitems, b)
  {
    forall b | 0 <= b < BUCKETS
      ensures BucketHolds(af, boff[b], boff[b + 1], bitems, b)
    {
      assert boff[b + 1] == Start(af, |af|, b + 1);
      BucketFull(af, boff[b], boff[b + 1], cur[b], bitems, b);
    }
  }

  /** Place filter `i` if it has a token. */
  method PlaceFilter(af: seq<Filter>, i: nat, cur: array<nat>, bitems: array<nat>)
    requires i < |af| && cur != bitems && Placed(af, i, cur[..], bitems[..])
    requires bitems.Length == Start(af, |af|, BUCKETS)
    modifies cur, bitems
    ensures Placed(af, i + 1, cur[..], bitems[..])
  {
    if !Indexed(af[i]) || af[i].thash == 0 {
      SkipOne(af, i, cur[..], bitems[..]);
      return;
    }
    var b := af[i].thash % BUCKETS;
    ghost var cur0, bitems0 := cur[..], bitems[..];
    PlaceOne(af, i, cur0, bitems0, b);
    bitems[cur[b]] := i;
    cur[b] := cur[b] + 1;
    assert cur[..] == cur0[b := cur0[b] + 1] && bitems[..] == bitems0[cur0[b] := i];
  }

  /** The first `i` filters' tokenless ones are listed. */
  ghost predicate Listed(af: seq<Filter>, i: nat, tk: nat, tokless: seq<nat>)
    requires i <= |af|
  {
    tk == |Members(af, i, BUCKETS)| <= |tokless| && tokless[..tk] == Members(af, i, BUCKETS)
  }

  /** List filter `i` if it has no token. */
  method ListFilter(af: seq<Filter>, i: nat, tokless: array<nat>, tk: nat) returns (tk': nat)
    requires i < |af| && Listed(af, i, tk, tokless[..]) && tokless.Length == |Members(af, |af|, BUCKETS)|
    modifies tokless
    ensures Listed(af, i + 1, tk', tokless[..])
  {
    MembersGrow(af, i + 1, |af|, BUCKETS);
    tk' := tk;
    if Indexed(af[i]) && af[i].thash == 0 {
      assert Members(af, i + 1, BUCKETS) == Members(af, i, BUCKETS) + [i];
      ghost var was := tokless[..tk];
      tokless[tk] := i;
      tk' := tk + 1;
      assert tokless[..tk'] == was + [i];
    }
  }

  /** The loop of pass two. */
  method PlaceAll(af: seq<Filter>, cur: array<nat>, bitems: array<nat>, tokless: array<nat>)
    requires cur != bitems && cur != tokless && bitems != tokless
    requires Placed(af, 0, cur[..], bitems[..]) && bitems.Length == Start(af, |af|, BUCKETS)
    requires tokless.Length == |Members(af, |af|, BUCKETS)|
    modifies cur, bitems, tokless
    ensures Placed(af, |af|, cur[..], bitems[..]) && tokless[..] == Members(af, |af|, BUCKETS)
  {
    var tk: nat := 0;
    for i := 0 to |af|
      invariant Placed(af, i, cur[..], bitems[..])
      invariant Listed(af, i, tk, tokless[..])
    {
      PlaceFilter(af, i, cur, bitems);
      tk := ListFilter(af, i, tokless, tk);
    }
    assert tokless[..][..tk] == tokless[..];
  }

  /** Pass two: every filter goes to its bucket's cursor or to the tokenless list. */
  method FillBuckets(af: seq<Filter>, boff: array<nat>, nitems: nat, ntokless: nat)
    returns (bitems: array<nat>, tokless: array<nat>)
    requires boff.Length == BUCKETS + 1
    requires forall k :: 0 <= k <= BUCKETS ==> boff[k] == Start(af, |af|, k)
    requires nitems == Start(af, |af|, BUCKETS) && ntokless == |Members(af, |af|, BUCKETS)|
    ensures fresh(bitems) && fresh(tokless)
    ensures IndexHolds(af, boff[..], bitems[..], tokless[..])
  {
    bitems := new nat[nitems];
    tokless := new nat[ntokless];
    var cur := new nat[BUCKETS + 1](k requires 0 <= k <= BUCKETS reads boff => boff[k]);
    PlacedNone(af, cur[..], bitems[..]);
    PlaceAll(af, cur, bitems, tokless);
    PlacedAll(af, boff[..], cur[..], bitems[..]);
  }

  /** The network half of `build_indexes` after the badfilter pass. */
  method BuildIndex(af: seq<Filter>) returns (boff: array<nat>, bitems: array<nat>, tokless: array<nat>)
    ensures fresh(boff) && fresh(bitems) && fresh(tokless)
    ensures IndexHolds(af, boff[..], bitems[..], tokless[..])
  {
    var nitems, ntokless;
    boff, nitems, ntokless := CountBuckets(af);
    SumOffsets(af, boff);
    bitems, tokless := FillBuckets(af, boff, nitems, ntokless);
  }
}
