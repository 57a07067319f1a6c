/** Anchored patterns of network filters: where a match may start, the quick reject on the first
    literal, and the host span of a URL. */
module AblockPattern {
  import opened AblockChars
  import opened AblockGlob

  datatype Anchor = Unanchored | AtHost | AtStart

  /** The pattern part of a filter, its anchors stripped; `lit0` is '\0' when there is no first literal. */
  datatype Pattern = Pattern(text: string, anchor: Anchor, enda: bool, lit0: char)

  // ---- the first literal ----

  /** Number of leading `*` and `^`. */
  function LeadLen(p: string): (n: nat)
    ensures n <= |p|
    ensures forall k :: 0 <= k < n ==> p[k] in {'*', '^'}
    ensures n < |p| ==> p[n] !in {'*', '^'}
  {
    if p != [] && p[0] in {'*', '^'} then
      var n := 1 + LeadLen(p[1..]);
      assert forall k :: 0 < k < n ==> p[k] == p[1..][k - 1];
      n
    else 0
  }

  /** The character kept for the quick reject. */
  function FirstLiteral(p: string): (c: char)
  {
    var n := LeadLen(p);
    if n < |p| && p[n] != '|' then Fold(p[n]) else '\0'
  }

  /** What the list parser stores. */
  predicate WellFormed(f: Pattern) { f.text != "" && '|' !in f.text && f.lit0 == FirstLiteral(f.text) }

  // ---- the host span ----

  predicate SchemeAt(u: string, i: int)
  {
    0 <= i && i + 2 < |u| && u[i] == ':' && u[i + 1] == '/' && u[i + 2] == '/'
  }

  predicate EndsHost(c: char) { c in {'/', '?', '#'} }

  /** [hs, he) is the stretch after the first `://` up to the next `/`, `?` or `#`, or [0, 0). */
  ghost predicate IsHostSpan(u: string, hs: nat, he: nat)
  {
    if hs == 0 then he == 0 && forall i :: !SchemeAt(u, i)
    else
      && SchemeAt(u, hs - 3) && (forall i :: SchemeAt(u, i) ==> hs - 3 <= i)
      && hs <= he <= |u|
      && (forall k :: hs <= k < he ==> !EndsHost(u[k]))
      && (he < |u| ==> EndsHost(u[he]))
  }

  method HostSpan(u: string) returns (hs: nat, he: nat)
    ensures IsHostSpan(u, hs, he)
  {
    hs, he := 0, 0;
    var i := 0;
    while i + 2 < |u|
      invariant 0 <= i
      invariant forall k :: 0 <= k < i ==> !SchemeAt(u, k)
      invariant hs == he == 0
    {
      if u[i] == ':' && u[i + 1] == '/' && u[i + 2] == '/' {
        assert SchemeAt(u, i);
        hs, he := i + 3, i + 3;
        while he < |u| && !EndsHost(u[he])
          invariant hs <= he <= |u|
          invariant forall k :: hs <= k < he ==> !EndsHost(u[k])
        {
          he := he + 1;
        }
        return;
      }
      i := i + 1;
    }
  }

  // ---- matching ----

  /** Positions the anchor lets a match start from. */
  predicate StartAllowed(f: Pattern, u: string, hs: nat, he: nat, s: nat)
  {
    && s <= |u|
    && match f.anchor
       case AtHost => s == hs || (hs < s < he && u[s - 1] == '.')
       case AtStart => s == 0
       case Unanchored => true
  }

  /** The quick reject lets a match start at `s`. */
  predicate QuickAccepts(f: Pattern, u: string, s: nat)
  {
    f.anchor == Unanchored && f.lit0 != '\0' ==> s < |u| && Fold(u[s]) == f.lit0
  }

  /** The declarative meaning of an anchored pattern. */
  ghost predicate Hits(f: Pattern, u: string, hs: nat, he: nat)
  {
    exists s :: StartAllowed(f, u, hs, he, s) && Matches(f.text, u, s, f.enda)
  }

  /** What the matcher finds when it is tried from every allowed start. */
  ghost predicate ScanHits(f: Pattern, u: string, hs: nat, he: nat)
  {
    exists s :: StartAllowed(f, u, hs, he, s) && LeftmostMatches(f.text, u, s, f.enda)
  }

  /** What the engine computes for it. */
  ghost predicate EngineHits(f: Pattern, u: string, hs: nat, he: nat)
  {
    exists s :: StartAllowed(f, u, hs, he, s) && QuickAccepts(f, u, s) && LeftmostMatches(f.text, u, s, f.enda)
  }

  /** `pat_match`. */
  method PatMatch(f: Pattern, u: string, hs: nat, he: nat) returns (hit: bool)
    requires WellFormed(f) && hs <= he <= |u|
    ensures hit ==> EngineHits(f, u, hs, he)
    ensures WithinBudget(f.text, u) && EngineHits(f, u, hs, he) ==> hit
  {
    if f.anchor == AtHost {
      hit := MatchAt(f.text, u, hs, f.enda);
      if hit { return; }
      var i := hs + 1;
      while i < he
        invariant hs + 1 <= i
        invariant WithinBudget(f.text, u) ==>
                    forall s :: hs <= s < i && StartAllowed(f, u, hs, he, s) ==> !LeftmostMatches(f.text, u, s, f.enda)
      {
        if u[i - 1] == '.' {
          hit := MatchAt(f.text, u, i, f.enda);
          if hit { return; }
        }
        i := i + 1;
      }
      return false;
    }
    if f.anchor == AtStart {
      hit := MatchAt(f.text, u, 0, f.enda);
      return;
    }
    var s := 0;
    while s <= |u|
      invariant 0 <= s <= |u| + 1
      invariant WithinBudget(f.text, u) ==>
                  forall t :: 0 <= t < s && QuickAccepts(f, u, t) ==> !LeftmostMatches(f.text, u, t, f.enda)
    {
      if f.lit0 == '\0' || (s < |u| && Fold(u[s]) == f.lit0) {
        hit := MatchAt(f.text, u, s, f.enda);
        if hit { return; }
      }
      s := s + 1;
    }
    return false;
  }

  // ---- the quick reject and the end anchor, exactly ----

  /** No `^` stands before the first literal. */
  predicate LeadIsStars(p: string)
  {
    FirstLiteral(p) != '\0' ==> '^' !in p[..LeadLen(p)]
  }

  /** An alignment behind leading stars may as well start at its first literal. */
  lemma StartAtLiteral(p: string, u: string, s: nat, cuts: seq<nat>) returns (moved: seq<nat>)
    requires Aligned(p, u, s, cuts) && FirstLiteral(p) != '\0' && LeadIsStars(p)
    ensures s <= cuts[LeadLen(p)] < |u| && Fold(u[cuts[LeadLen(p)]]) == FirstLiteral(p)
    ensures Aligned(p, u, cuts[LeadLen(p)], moved) && moved[|p|] == cuts[|p|]
  {
    var n := LeadLen(p);
    var t := cuts[n];
    AlignedIsMonotone(p, u, s, cuts, 0, n);
    assert Covers(p[n], u, cuts[n], cuts[n + 1]);
    moved := seq(|p| + 1, k requires 0 <= k <= |p| => if k < n then t else cuts[k]);
    forall k | 0 <= k < |p|
      ensures Covers(p[k], u, moved[k], moved[k + 1])
    {
      assert Covers(p[k], u, cuts[k], cuts[k + 1]);
      assert k < n ==> p[..n][k] == p[k];
    }
  }

  /** Behind leading stars an alignment may start anywhere earlier. */
  lemma StartEarlier(p: string, u: string, s: nat, t: nat, d: seq<nat>)
    requires p != "" && p[0] == '*' && s <= t && Aligned(p, u, t, d)
    ensures Aligned(p, u, s, d[0 := s])
  {
    var e := d[0 := s];
    forall k | 0 <= k < |p|
      ensures Covers(p[k], u, e[k], e[k + 1])
    {
      assert Covers(p[k], u, d[k], d[k + 1]);
    }
  }

  /** So a leftmost match behind leading stars is one from its first literal, end anchor or not. */
  lemma LeftmostAtLiteral(p: string, u: string, s: nat, enda: bool) returns (t: nat)
    requires LeftmostMatches(p, u, s, enda) && FirstLiteral(p) != '\0' && LeadIsStars(p)
    ensures t < |u| && Fold(u[t]) == FirstLiteral(p) && LeftmostMatches(p, u, t, enda)
  {
    var cuts :| Aligned(p, u, s, cuts);
    var moved := StartAtLiteral(p, u, s, cuts);
    t := cuts[LeadLen(p)];
    if enda {
      forall d | Aligned(p, u, t, d)
        ensures d[|p|] == |u|
      {
        if LeadLen(p) > 0 {
          assert p[..LeadLen(p)][0] == p[0] == '*';
          StartEarlier(p, u, s, t, d);
          assert d[0 := s][|p|] == |u|;
        }
      }
    }
  }

  /** The quick reject costs the matcher nothing when no `^` stands before the first literal of an
      unanchored pattern. */
  lemma EngineIsScan(f: Pattern, u: string, hs: nat, he: nat)
    requires WellFormed(f)
    ensures EngineHits(f, u, hs, he) ==> ScanHits(f, u, hs, he)
    ensures (f.anchor == Unanchored ==> LeadIsStars(f.text)) ==> (EngineHits(f, u, hs, he) <==> ScanHits(f, u, hs, he))
  {
    if (f.anchor == Unanchored ==> LeadIsStars(f.text)) && ScanHits(f, u, hs, he) {
      var s :| StartAllowed(f, u, hs, he, s) && LeftmostMatches(f.text, u, s, f.enda);
      var t := s;
      if f.anchor == Unanchored && f.lit0 != '\0' {
        t := LeftmostAtLiteral(f.text, u, s, f.enda);
      }
      assert StartAllowed(f, u, hs, he, t) && QuickAccepts(f, u, t);
    }
  }

  /** The scan never reports a hit that is not one, and misses none when no star meets an end anchor. */
  lemma ScanAgainstHits(f: Pattern, u: string, hs: nat, he: nat)
    ensures ScanHits(f, u, hs, he) ==> Hits(f, u, hs, he)
    ensures (f.enda ==> '*' !in f.text) ==> (ScanHits(f, u, hs, he) <==> Hits(f, u, hs, he))
  {
    if ScanHits(f, u, hs, he) {
      var s :| StartAllowed(f, u, hs, he, s) && LeftmostMatches(f.text, u, s, f.enda);
      LeftmostAgainstMatches(f.text, u, s, f.enda);
    }
    if (f.enda ==> '*' !in f.text) && Hits(f, u, hs, he) {
      var s :| StartAllowed(f, u, hs, he, s) && Matches(f.text, u, s, f.enda);
      LeftmostAgainstMatches(f.text, u, s, f.enda);
    }
  }

  /** The engine never reports a hit that is not one, and misses none when no `^` stands before the
      first literal of an unanchored pattern and no star meets an end anchor. */
  lemma EngineAgainstHits(f: Pattern, u: string, hs: nat, he: nat)
    requires WellFormed(f)
    ensures EngineHits(f, u, hs, he) ==> Hits(f, u, hs, he)
    ensures (f.anchor == Unanchored ==> LeadIsStars(f.text)) && (f.enda ==> '*' !in f.text) ==>
              (EngineHits(f, u, hs, he) <==> Hits(f, u, hs, he))
  {
    EngineIsScan(f, u, hs, he);
    ScanAgainstHits(f, u, hs, he);
  }

  // A `^` before the first literal defeats the quick reject on the shortest URL the pattern matches.

  /** Index just past the last literal. */
  function Core(p: string): (n: nat)
    requires LeadLen(p) < |p|
    ensures LeadLen(p) < n <= |p| && p[n - 1] !in {'*', '^'}
    ensures forall k :: n <= k < |p| ==> p[k] in {'*', '^'}
  {
    CoreFrom(p, |p|)
  }

  function CoreFrom(p: string, m: nat): (n: nat)
    requires LeadLen(p) < m <= |p|
    requires forall k :: m <= k < |p| ==> p[k] in {'*', '^'}
    ensures LeadLen(p) < n <= m && p[n - 1] !in {'*', '^'}
    ensures forall k :: n <= k < |p| ==> p[k] in {'*', '^'}
  {
    if p[m - 1] in {'*', '^'} then CoreFrom(p, m - 1) else m
  }

  /** Up to the last literal, an alignment spends at least as much text as the shortest instance. */
  lemma {:induction false} AlignmentSpends(p: string, u: string, s: nat, cuts: seq<nat>, k: nat, sep: char)
    requires LeadLen(p) < |p| && k <= Core(p)
    requires Aligned(p, u, s, cuts)
    ensures cuts[k] >= s + |Instance(p[..k], "", sep)|
  {
    if 0 < k {
      AlignmentSpends(p, u, s, cuts, k - 1, sep);
      InstanceGrows(p, k, sep);
      PieceSpends(p, u, s, cuts, k, sep);
    }
  }

  lemma InstanceGrows(p: string, k: nat, sep: char)
    requires 0 < k <= |p|
    ensures |Instance(p[..k], "", sep)| == |Instance(p[..k - 1], "", sep)| + |Piece(p[k - 1], "", sep)|
  {
    assert p[..k] == p[..k - 1] + [p[k - 1]];
    InstanceOfSplit(p[..k - 1], [p[k - 1]], "", sep);
    assert Instance([p[k - 1]], "", sep) == Piece(p[k - 1], "", sep);
  }

  lemma PieceSpends(p: string, u: string, s: nat, cuts: seq<nat>, k: nat, sep: char)
    requires LeadLen(p) < |p| && 0 < k <= Core(p) && Aligned(p, u, s, cuts)
    ensures cuts[k] >= cuts[k - 1] + |Piece(p[k - 1], "", sep)|
  {
    assert Covers(p[k - 1], u, cuts[k - 1], cuts[k - 1 + 1]);
    AlignedIsMonotone(p, u, s, cuts, k - 1, Core(p) - 1);
    assert Covers(p[Core(p) - 1], u, cuts[Core(p) - 1], cuts[Core(p) - 1 + 1]);
  }

  /** Trailing `*` and `^` match nothing at the end of the URL. */
  lemma TailAtEnd(q: string, u: string)
    requires forall k :: 0 <= k < |q| ==> q[k] in {'*', '^'}
    ensures Aligned(q, u, |u|, seq(|q| + 1, k => |u|))
  {
  }

  lemma SeparatorBeforeLiteralLosesMatches(f: Pattern) returns (u: string)
    requires WellFormed(f) && f.anchor == Unanchored && !LeadIsStars(f.text)
    ensures forall hs, he :: ScanHits(f, u, hs, he) && Hits(f, u, hs, he) && !EngineHits(f, u, hs, he)
  {
    var p := f.text;
    var sep := if f.lit0 == '/' then ':' else '/';
    var n := Core(p);
    var q, tail := p[..n], p[n..];
    u := Instance(q, "", sep);
    assert p == q + tail && u == "" + u + "";
    var cuts := InstanceAligned(q, "", sep, "", "");
    TailAtEnd(tail, u);
    Glue(q, tail, u, 0, cuts, seq(|tail| + 1, k => |u|));
    assert Aligned(p, u, 0, cuts[..|q|] + seq(|tail| + 1, k => |u|));
    forall c | Aligned(p, u, 0, c)
      ensures c[|p|] == |u|
    {
      AlignmentSpends(p, u, 0, c, n, sep);
      AlignedIsMonotone(p, u, 0, c, n, |p|);
    }
    assert LeftmostMatches(p, u, 0, f.enda);
    LeadInstanceStarts(p, sep);
    forall s | QuickAccepts(f, u, s)
      ensures !exists c :: Aligned(p, u, s, c)
    {
      forall c | Aligned(p, u, s, c)
        ensures false
      {
        AlignmentSpends(p, u, s, c, n, sep);
        AlignedIsMonotone(p, u, s, c, n, n);
      }
    }
    forall hs, he
      ensures ScanHits(f, u, hs, he) && Hits(f, u, hs, he) && !EngineHits(f, u, hs, he)
    {
      assert StartAllowed(f, u, hs, he, 0);
      ScanAgainstHits(f, u, hs, he);
    }
  }

  /** The instance of a pattern with a `^` in its lead starts with the separator. */
  lemma LeadInstanceStarts(p: string, sep: char)
    requires LeadLen(p) < |p| && '^' in p[..LeadLen(p)]
    ensures var u := Instance(p[..Core(p)], "", sep); u != "" && u[0] == sep
  {
    LeadStarts(p[..Core(p)], LeadLen(p), sep);
  }

  lemma {:induction false} LeadStarts(q: string, n: nat, sep: char)
    requires n <= |q| && '^' in q[..n] && forall k :: 0 <= k < n ==> q[k] in {'*', '^'}
    ensures var u := Instance(q, "", sep); u != "" && u[0] == sep
    decreases n
  {
    if q[0] == '*' {
      assert q[1..][..n - 1] == q[..n][1..];
      LeadStarts(q[1..], n - 1, sep);
    }
  }

  /** Exactly the unanchored patterns the quick reject is right about, for every URL: against the
      matcher tried from every start, and against the declarative meaning where the matcher is exact. */
  lemma QuickRejectExactIff(f: Pattern)
    requires WellFormed(f) && f.anchor == Unanchored
    ensures (forall u, hs, he :: EngineHits(f, u, hs, he) <==> ScanHits(f, u, hs, he)) <==> LeadIsStars(f.text)
    ensures (f.enda ==> '*' !in f.text) ==>
              ((forall u, hs, he :: EngineHits(f, u, hs, he) <==> Hits(f, u, hs, he)) <==> LeadIsStars(f.text))
  {
    if LeadIsStars(f.text) {
      forall u, hs, he
        ensures EngineHits(f, u, hs, he) <==> ScanHits(f, u, hs, he)
        ensures (f.enda ==> '*' !in f.text) ==> (EngineHits(f, u, hs, he) <==> Hits(f, u, hs, he))
      {
        EngineAgainstHits(f, u, hs, he);
        EngineIsScan(f, u, hs, he);
      }
    } else {
      var u := SeparatorBeforeLiteralLosesMatches(f);
      assert ScanHits(f, u, 0, 0) && Hits(f, u, 0, 0) && !EngineHits(f, u, 0, 0);
    }
  }
}
