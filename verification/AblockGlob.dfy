/** The backtracking glob matcher of the ad-block engine against a declarative notion of match.

    A pattern matches a URL from a start position when there are cut positions, one before each
    pattern character and one after the last, such that every character accounts for the stretch
    between its two cuts: `*` for any stretch, `^` for one separator or for nothing at the end of
    the URL, a literal for one character equal up to case. */
module AblockGlob {
  import opened AblockChars

  /** `match_at` gives up after this many loop rounds. */
  const STEP_BUDGET := 200000

  /** Pattern character `pc` can account for u[i..j]. */
  predicate Covers(pc: char, u: string, i: nat, j: nat)
  {
    && i <= j <= |u|
    && (if pc == '*' then true
        else if pc == '^' then (i == |u| && j == i) || (i < |u| && IsSeparator(u[i]) && j == i + 1)
        else i < |u| && Fold(u[i]) == Fold(pc) && j == i + 1)
  }

  ghost predicate Aligned(p: string, u: string, start: nat, cuts: seq<nat>)
  {
    && start <= |u|
    && |cuts| == |p| + 1
    && cuts[0] == start
    && forall k :: 0 <= k < |p| ==> Covers(p[k], u, cuts[k], cuts[k + 1])
  }

  /** The declarative relation: some alignment exists, and reaches the end of the URL when asked. */
  ghost predicate Matches(p: string, u: string, start: nat, enda: bool)
  {
    exists cuts :: Aligned(p, u, start, cuts) && (enda ==> cuts[|p|] == |u|)
  }

  /** What the matcher computes: some alignment exists and, when the end anchor is set, no
      alignment ends before the end of the URL. */
  ghost predicate LeftmostMatches(p: string, u: string, start: nat, enda: bool)
  {
    && (exists cuts :: Aligned(p, u, start, cuts))
    && (enda ==> forall cuts :: Aligned(p, u, start, cuts) ==> cuts[|p|] == |u|)
  }

  predicate WithinBudget(p: string, u: string)
  {
    (|p| + 2) * (|u| + 2) <= STEP_BUDGET || ('*' !in p && |p| < STEP_BUDGET)
  }

  lemma {:induction false} AlignedIsMonotone(p: string, u: string, start: nat, cuts: seq<nat>, i: nat, j: nat)
    requires Aligned(p, u, start, cuts)
    requires i <= j <= |p|
    ensures cuts[i] <= cuts[j] <= |u|
    decreases j
  {
    if i < j {
      AlignedIsMonotone(p, u, start, cuts, i, j - 1);
      assert Covers(p[j - 1], u, cuts[j - 1], cuts[j - 1 + 1]);
    } else if 0 < j {
      assert Covers(p[j - 1], u, cuts[j - 1], cuts[j - 1 + 1]);
    }
  }

  /** Every alignment of `p` from `start` has its cut at `at` no earlier than `bound`. */
  ghost predicate CutsFrom(p: string, u: string, start: nat, at: nat, bound: nat)
    requires at <= |p|
  {
    forall cuts :: Aligned(p, u, start, cuts) ==> bound <= cuts[at]
  }

  /** Alignments that agree at `from` (value `v`) agree at `at` (value `w`). */
  ghost predicate Forced(p: string, u: string, start: nat, from: nat, v: nat, at: nat, w: nat)
    requires from <= |p| && at <= |p|
  {
    forall cuts :: Aligned(p, u, start, cuts) && cuts[from] == v ==> cuts[at] == w
  }

  /** Everything the matcher knows at the head of its loop. `from` and `v` are the most recent star
      and its position, or the pattern's start while no star has been met. */
  ghost predicate Progress(p: string, u: string, start: nat, from: nat, v: nat, pi: nat, ui: nat, cuts: seq<nat>)
  {
    && from <= pi <= |p| && start <= v <= ui <= |u|
    && (from == 0 ==> v == start)
    && (0 < from ==> p[from - 1] == '*')
    && Aligned(p[..pi], u, start, cuts)
    && cuts[pi] == ui && cuts[from] == v
    && CutsFrom(p, u, start, from, v)
    && CutsFrom(p, u, start, pi, ui)
    && Forced(p, u, start, from, v, pi, ui)
  }

  /** One matched non-star character. */
  lemma AdvanceKeeps(p: string, u: string, start: nat, from: nat, v: nat, pi: nat, ui: nat, cuts: seq<nat>, adv: nat)
    requires Progress(p, u, start, from, v, pi, ui, cuts)
    requires pi < |p| && p[pi] != '*' && Covers(p[pi], u, ui, ui + adv)
    ensures Progress(p, u, start, from, v, pi + 1, ui + adv, cuts + [ui + adv])
  {
    assert p[..pi + 1] == p[..pi] + [p[pi]];
    forall c | Aligned(p, u, start, c)
      ensures ui + adv <= c[pi + 1]
      ensures c[from] == v ==> c[pi + 1] == ui + adv
    {
      assert Covers(p[pi], u, c[pi], c[pi + 1]);
    }
  }

  /** A star restarts the forced stretch at the current position. */
  lemma StarKeeps(p: string, u: string, start: nat, from: nat, v: nat, pi: nat, ui: nat, cuts: seq<nat>)
    requires Progress(p, u, start, from, v, pi, ui, cuts)
    requires pi < |p| && p[pi] == '*'
    ensures Progress(p, u, start, pi + 1, ui, pi + 1, ui, cuts + [ui])
  {
    assert p[..pi + 1] == p[..pi] + [p[pi]];
    forall c | Aligned(p, u, start, c)
      ensures ui <= c[pi + 1]
    {
      assert Covers(p[pi], u, c[pi], c[pi + 1]);
    }
  }

  /** When the stretch after the last star dies, no alignment gives that star so little. */
  lemma MismatchRules(p: string, u: string, start: nat, from: nat, v: nat, pi: nat, ui: nat, cuts: seq<nat>)
    requires Progress(p, u, start, from, v, pi, ui, cuts)
    requires pi < |p| && p[pi] != '*'
    requires !Covers(p[pi], u, ui, ui) && !Covers(p[pi], u, ui, ui + 1)
    ensures CutsFrom(p, u, start, from, v + 1)
    ensures from == 0 || v == |u| ==> !exists c :: Aligned(p, u, start, c)
  {
    forall c | Aligned(p, u, start, c)
      ensures v + 1 <= c[from] <= |u|
    {
      assert Covers(p[pi], u, c[pi], c[pi + 1]);
      AlignedIsMonotone(p, u, start, c, from, from);
    }
  }

  /** The last star suffices: it takes one more character and the stretch after it starts over. */
  lemma BacktrackKeeps(p: string, u: string, start: nat, from: nat, v: nat, pi: nat, ui: nat, cuts: seq<nat>)
    requires Progress(p, u, start, from, v, pi, ui, cuts)
    requires pi < |p| && p[pi] != '*' && 0 < from && v < |u|
    requires !Covers(p[pi], u, ui, ui) && !Covers(p[pi], u, ui, ui + 1)
    ensures Progress(p, u, start, from, v + 1, from, v + 1, cuts[..from] + [v + 1])
  {
    MismatchRules(p, u, start, from, v, pi, ui, cuts);
    var c' := cuts[..from] + [v + 1];
    var q, q' := p[..pi], p[..from];
    forall k | 0 <= k < from
      ensures Covers(q'[k], u, c'[k], c'[k + 1])
    {
      assert q'[k] == q[k];
      assert Covers(q[k], u, cuts[k], cuts[k + 1]);
    }
  }

  /** At the end of the pattern the answer is the leftmost one. */
  lemma FinishDecides(p: string, u: string, start: nat, from: nat, v: nat, ui: nat, cuts: seq<nat>, enda: bool)
    requires Progress(p, u, start, from, v, |p|, ui, cuts)
    ensures LeftmostMatches(p, u, start, enda) <==> (!enda || ui == |u|)
  {
    assert p[..|p|] == p;
    forall c | Aligned(p, u, start, c)
      ensures ui <= c[|p|] <= |u|
    {
      AlignedIsMonotone(p, u, start, c, |p|, |p|);
    }
  }

  /** `match_at`: greedy matching that on a mismatch lets only the most recent star grow. */
  method MatchAt(p: string, u: string, start: nat, enda: bool) returns (ok: bool)
    requires start <= |u|
    ensures ok ==> LeftmostMatches(p, u, start, enda)
    ensures WithinBudget(p, u) && LeftmostMatches(p, u, start, enda) ==> ok
  {
    var pi: nat, ui: nat, star: int, starUi: nat, steps := 0, start, -1, 0, 0;
    ghost var from: nat, v: nat := 0, start;
    ghost var cuts: seq<nat> := [start];
    while true
      invariant Progress(p, u, start, from, v, pi, ui, cuts)
      invariant if star == -1 then from == 0 && starUi == 0 else star == from && 0 < from && starUi == v
      invariant 0 <= steps <= Rounds(starUi, |p|) + pi
      decreases |u| - starUi, |p| - pi
    {
      steps := steps + 1;
      if steps > STEP_BUDGET {
        BudgetHolds(p, u, starUi, pi, from);
        return false;
      }
      if pi >= |p| {
        FinishDecides(p, u, start, from, v, ui, cuts, enda);
        return !enda || ui == |u|;
      }
      var pc := p[pi];
      if pc == '*' {
        StarKeeps(p, u, start, from, v, pi, ui, cuts);
        RoundsIsMonotone(starUi, ui, |p|);
        cuts := cuts + [ui];
        pi := pi + 1;
        star, starUi := pi, ui;
        from, v := pi, ui;
        continue;
      }
      var matched, adv := false, 0;
      if pc == '^' {
        if ui >= |u| {
          matched := true;
        } else if IsSeparator(u[ui]) {
          matched, adv := true, 1;
        }
      } else if ui < |u| && Fold(u[ui]) == Fold(pc) {
        matched, adv := true, 1;
      }
      if matched {
        AdvanceKeeps(p, u, start, from, v, pi, ui, cuts, adv);
        cuts := cuts + [ui + adv];
        pi, ui := pi + 1, ui + adv;
        continue;
      }
      MismatchRules(p, u, start, from, v, pi, ui, cuts);
      if star < 0 { return false; }
      starUi := starUi + 1;
      if starUi > |u| { return false; }
      BacktrackKeeps(p, u, start, from, v, pi, ui, cuts);
      cuts, v := cuts[..from] + [starUi], starUi;
      pi, ui := star, starUi;
    }
  }

  /** Most loop rounds spent while the star grew to `starUi`. */
  ghost function Rounds(starUi: nat, plen: nat): nat
  {
    if starUi == 0 then 0 else Rounds(starUi - 1, plen) + plen + 1
  }

  lemma {:induction false} RoundsIsMonotone(a: nat, b: nat, plen: nat)
    requires a <= b
    ensures Rounds(a, plen) <= Rounds(b, plen)
    decreases b
  {
    if a < b { RoundsIsMonotone(a, b - 1, plen); }
  }

  lemma {:induction false} RoundsInBudget(starUi: nat, plen: nat, ulen: nat)
    requires starUi <= ulen
    ensures Rounds(starUi, plen) + plen + 1 < (plen + 2) * (ulen + 2)
    decreases starUi
  {
    if 0 < starUi {
      RoundsInBudget(starUi - 1, plen, ulen - 1);
      assert (plen + 2) * (ulen + 2) == (plen + 2) * (ulen + 1) + plen + 2;
    } else {
      assert (plen + 2) * (ulen + 2) == (plen + 2) * ulen + 2 * plen + 4;
    }
  }

  lemma BudgetHolds(p: string, u: string, starUi: nat, pi: nat, from: nat)
    requires starUi <= |u| && from <= pi <= |p|
    requires if from == 0 then starUi == 0 else p[from - 1] == '*'
    requires Rounds(starUi, |p|) + pi + 1 > STEP_BUDGET
    ensures !WithinBudget(p, u)
  {
    RoundsInBudget(starUi, |p|, |u|);
  }

  // ---- when the matcher agrees with the declarative relation ----

  /** Two alignments that meet glue together. */
  lemma Glue(p: string, q: string, u: string, start: nat, c: seq<nat>, d: seq<nat>)
    requires Aligned(p, u, start, c) && Aligned(q, u, c[|p|], d)
    ensures Aligned(p + q, u, start, c[..|p|] + d)
    ensures (c[..|p|] + d)[|p| + |q|] == d[|q|]
  {
    var cuts := c[..|p|] + d;
    forall k | 0 <= k < |p + q|
      ensures Covers((p + q)[k], u, cuts[k], cuts[k + 1])
    {
      if k < |p| {
        assert Covers(p[k], u, c[k], c[k + 1]);
      } else {
        assert Covers(q[k - |p|], u, d[k - |p|], d[k - |p| + 1]);
      }
    }
  }

  /** The URL text standing for one pattern character: itself, the separator `sep` for
      `^`, `fill` for `*`. */
  function Piece(pc: char, fill: string, sep: char): (r: string)
  {
    if pc == '*' then fill else if pc == '^' then [sep] else [pc]
  }

  /** A URL text the pattern matches. */
  function Instance(p: string, fill: string, sep: char): (r: string)
  {
    if p == [] then [] else Piece(p[0], fill, sep) + Instance(p[1..], fill, sep)
  }

  lemma {:induction false} InstanceOfSplit(p: string, q: string, fill: string, sep: char)
    ensures Instance(p + q, fill, sep) == Instance(p, fill, sep) + Instance(q, fill, sep)
  {
    if p == [] {
      assert p + q == q;
    } else {
      assert (p + q)[1..] == p[1..] + q;
      InstanceOfSplit(p[1..], q, fill, sep);
    }
  }

  /** Where pattern character `k` starts in the instance. */
  function CutAt(p: string, fill: string, sep: char, k: nat): (r: nat)
    requires k <= |p|
  {
    |Instance(p[..k], fill, sep)|
  }

  /** Character `k` of the pattern owns exactly its piece of the instance. */
  lemma PieceAt(p: string, fill: string, sep: char, k: nat)
    requires k < |p|
    ensures CutAt(p, fill, sep, k) + |Piece(p[k], fill, sep)| == CutAt(p, fill, sep, k + 1) <= |Instance(p, fill, sep)|
    ensures Instance(p, fill, sep)[CutAt(p, fill, sep, k)..CutAt(p, fill, sep, k + 1)] == Piece(p[k], fill, sep)
  {
    assert p[..k + 1] == p[..k] + [p[k]];
    InstanceOfSplit(p[..k], [p[k]], fill, sep);
    assert Instance([p[k]], fill, sep) == Piece(p[k], fill, sep);
    assert p == p[..k + 1] + p[k + 1..];
    InstanceOfSplit(p[..k + 1], p[k + 1..], fill, sep);
  }

  /** An instance embedded anywhere is matched exactly, cut at its pieces. */
  lemma InstanceAligned(p: string, fill: string, sep: char, pre: string, post: string) returns (cuts: seq<nat>)
    requires IsSeparator(sep)
    ensures Aligned(p, pre + Instance(p, fill, sep) + post, |pre|, cuts)
    ensures cuts[|p|] == |pre| + |Instance(p, fill, sep)|
  {
    var u := pre + Instance(p, fill, sep) + post;
    cuts := seq(|p| + 1, k requires 0 <= k <= |p| => |pre| + CutAt(p, fill, sep, k));
    forall k | 0 <= k < |p|
      ensures Covers(p[k], u, cuts[k], cuts[k + 1])
    {
      PieceAt(p, fill, sep, k);
      PieceCovers(p[k], fill, sep, u, cuts[k], cuts[k + 1], pre, Instance(p, fill, sep), post);
    }
    assert p[..|p|] == p;
  }

  lemma PieceCovers(pc: char, fill: string, sep: char, u: string, i: nat, j: nat,
                    pre: string, mid: string, post: string)
    requires IsSeparator(sep) && u == pre + mid + post && |pre| <= i <= j <= |pre| + |mid|
    requires mid[i - |pre|..j - |pre|] == Piece(pc, fill, sep)
    ensures Covers(pc, u, i, j)
  {
    if pc != '*' {
      assert Piece(pc, fill, sep)[0] == mid[i - |pre|] == u[i];
    }
  }

  /** Without a star there is at most one alignment. */
  lemma {:induction false} StarFreeIsForced(p: string, u: string, start: nat, c: seq<nat>, d: seq<nat>, k: nat)
    requires '*' !in p
    requires Aligned(p, u, start, c) && Aligned(p, u, start, d)
    requires k <= |p|
    ensures c[k] == d[k]
  {
    if 0 < k {
      StarFreeIsForced(p, u, start, c, d, k - 1);
      assert p[k - 1] != '*';
      assert Covers(p[k - 1], u, c[k - 1], c[k - 1 + 1]);
      assert Covers(p[k - 1], u, d[k - 1], d[k - 1 + 1]);
    }
  }

  /** The matcher is sound for every pattern, and exact unless a star meets the end anchor. */
  lemma LeftmostAgainstMatches(p: string, u: string, start: nat, enda: bool)
    ensures LeftmostMatches(p, u, start, enda) ==> Matches(p, u, start, enda)
    ensures !enda || '*' !in p ==> (LeftmostMatches(p, u, start, enda) <==> Matches(p, u, start, enda))
  {
    if enda && '*' !in p && Matches(p, u, start, enda) {
      var c :| Aligned(p, u, start, c) && c[|p|] == |u|;
      forall d | Aligned(p, u, start, d)
        ensures d[|p|] == |u|
      {
        StarFreeIsForced(p, u, start, c, d, |p|);
      }
    }
  }

  /** Whenever a star and the end anchor do meet, some URL is matched by the relation and refused
      by the matcher: the text after the last star occurs twice, and the first occurrence is taken. */
  lemma StarBeforeEndAnchorLosesMatches(p: string) returns (u: string)
    requires '*' in p
    ensures Matches(p, u, 0, true) && !LeftmostMatches(p, u, 0, true)
  {
    var k := |p|;
    while k > 0 && p[k - 1] != '*'
      invariant 0 <= k <= |p| && '*' !in p[k..]
    {
      k := k - 1;
    }
    var head, tail := p[..k], p[k..];
    assert p == head + tail;
    var once, again := Instance(head, "", '/'), Instance(tail, "", '/');
    var extra := if again == "" then "/" else again;
    u := once + again + extra;
    InstanceOfSplit(head, tail, "", '/');
    EarlyEnd(p, extra, u);
    LateEnd(head, tail, if again == "" then extra else again, u);
  }

  lemma EarlyEnd(p: string, extra: string, u: string)
    requires u == Instance(p, "", '/') + extra && extra != ""
    ensures !LeftmostMatches(p, u, 0, true)
  {
    assert u == "" + Instance(p, "", '/') + extra;
    var early := InstanceAligned(p, "", '/', "", extra);
    assert Aligned(p, u, 0, early);
  }

  /** The last star can swallow the first copy of the tail. */
  lemma LateEnd(head: string, tail: string, mid: string, u: string)
    requires head != "" && head[|head| - 1] == '*'
    requires u == Instance(head, "", '/') + mid + Instance(tail, "", '/')
    ensures Matches(head + tail, u, 0, true)
  {
    var once, again := Instance(head, "", '/'), Instance(tail, "", '/');
    var stop := |once + mid|;
    var first := LongHead(head, mid + again, u, stop);
    assert u == (once + mid) + again + "";
    var last := InstanceAligned(tail, "", '/', once + mid, "");
    Glue(head, tail, u, 0, first, last);
    assert Aligned(head + tail, u, 0, first[..|head|] + last);
  }

  /** A head ending in a star, aligned up to any later place. */
  lemma LongHead(head: string, rest: string, u: string, stop: nat) returns (cuts: seq<nat>)
    requires head != "" && head[|head| - 1] == '*'
    requires u == Instance(head, "", '/') + rest && |Instance(head, "", '/')| <= stop <= |u|
    ensures Aligned(head, u, 0, cuts) && cuts[|head|] == stop
  {
    assert u == "" + Instance(head, "", '/') + rest;
    var first := InstanceAligned(head, "", '/', "", rest);
    StretchLast(head, u, first, stop);
    cuts := first[|head| := stop];
  }

  /** An alignment ending in a star may end anywhere later. */
  lemma StretchLast(p: string, u: string, cuts: seq<nat>, stop: nat)
    requires p != "" && p[|p| - 1] == '*'
    requires Aligned(p, u, 0, cuts) && cuts[|p|] <= stop <= |u|
    ensures Aligned(p, u, 0, cuts[|p| := stop])
  {
    var grown := cuts[|p| := stop];
    forall j | 0 <= j < |p|
      ensures Covers(p[j], u, grown[j], grown[j + 1])
    {
      assert Covers(p[j], u, cuts[j], cuts[j + 1]);
    }
  }

  /** Exactly the patterns on which the matcher is right for every URL. */
  lemma MatcherExactIff(p: string, enda: bool)
    ensures (forall u, start :: LeftmostMatches(p, u, start, enda) <==> Matches(p, u, start, enda))
            <==> !enda || '*' !in p
  {
    if !enda || '*' !in p {
      forall u, start
        ensures LeftmostMatches(p, u, start, enda) <==> Matches(p, u, start, enda)
      {
        LeftmostAgainstMatches(p, u, start, enda);
      }
    } else {
      var u := StarBeforeEndAnchorLosesMatches(p);
    }
  }
}
