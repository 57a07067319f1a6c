/** The label walk over the host set against the pattern `||h^` it stands for. */
module AblockHosts {
  import opened AblockChars
  import opened AblockGlob
  import opened AblockPattern
  import opened AblockVerdict

  /** From label `i` to the end of the span the URL reads `h`. */
  predicate ReadsName(u: string, hs: nat, he: nat, i: nat, h: string)
  {
    LabelStart(u, hs, he, i) && FoldAll(u[i..he]) == FoldAll(h)
  }

  // ---- what the pattern reads ----

  ghost predicate ReadsThenStops(h: string, u: string, s: nat)
  {
    && s + |h| <= |u| && FoldAll(u[s..s + |h|]) == FoldAll(h)
    && (s + |h| == |u| || IsSeparator(u[s + |h|]))
  }

  /** Matching `h^` at `s` means reading `h` and then a separator or the end. */
  lemma HostMatchAt(h: string, u: string, s: nat)
    requires AllHostChars(h)
    ensures Matches(h + "^", u, s, false) <==> ReadsThenStops(h, u, s)
  {
    var p := h + "^";
    if Matches(p, u, s, false) {
      var cuts :| Aligned(p, u, s, cuts);
      HostStretch(p, u, s, cuts, |h|);
      assert Covers(p[|h|], u, cuts[|h|], cuts[|h| + 1]);
      var v := u[s..s + |h|];
      forall k | 0 <= k < |h| ensures FoldAll(v)[k] == FoldAll(h)[k] {
        assert Fold(u[s + k]) == Fold(p[k]);
      }
    }
    if ReadsThenStops(h, u, s) {
      ReadingAligns(h, u, s);
    }
  }

  lemma ReadingAligns(h: string, u: string, s: nat)
    requires AllHostChars(h) && ReadsThenStops(h, u, s)
    ensures Matches(h + "^", u, s, false)
  {
    var p := h + "^";
    var e := if s + |h| == |u| then s + |h| else s + |h| + 1;
    var cuts := seq(|p| + 1, k requires 0 <= k <= |p| => if k <= |h| then s + k else e);
    forall k | 0 <= k < |p| ensures Covers(p[k], u, cuts[k], cuts[k + 1]) {
      if k < |h| {
        assert p[k] == h[k] && IsHostChar(h[k]);
        assert FoldAll(u[s..s + |h|])[k] == FoldAll(h)[k];
      }
    }
    assert Aligned(p, u, s, cuts);
  }

  lemma {:induction false} HostStretch(p: string, u: string, s: nat, cuts: seq<nat>, n: nat)
    requires Aligned(p, u, s, cuts) && n <= |p| && forall k :: 0 <= k < n ==> IsHostChar(p[k])
    ensures cuts[n] == s + n <= |u|
    ensures forall k :: 0 <= k < n ==> Fold(u[s + k]) == Fold(p[k])
  {
    if n > 0 {
      HostStretch(p, u, s, cuts, n - 1);
      assert Covers(p[n - 1], u, cuts[n - 1], cuts[n - 1 + 1]);
    }
  }

  /** [s, t) starts at a label and ends with the span or at a separator in it. */
  predicate CutName(u: string, hs: nat, he: nat, s: nat, t: nat)
  {
    LabelStart(u, hs, he, s) && s < t <= he && (t == he || IsSeparator(u[t]))
  }

  /** Reading a host name from inside the span never leaves it. */
  lemma NameStaysInside(h: string, u: string, hs: nat, he: nat, s: nat)
    requires IsHostSpan(u, hs, he) && AllHostChars(h) && hs <= s < he && ReadsThenStops(h, u, s)
    ensures s + |h| <= he
  {
    if he < s + |h| {
      var k := he - s;
      assert FoldAll(u[s..s + |h|])[k] == FoldAll(h)[k];
      FoldKeepsClasses(u[he], h[k]);
    }
  }

  /** `||h^` hits exactly when some name cut out of the span is `h`. */
  lemma PatternReadsCutNames(h: string, u: string, hs: nat, he: nat)
    requires IsHostSpan(u, hs, he) && hs < he && h != "" && AllHostChars(h)
    ensures Hits(HostPattern(h), u, hs, he) <==>
              exists s: nat, t: nat :: CutName(u, hs, he, s, t) && FoldAll(u[s..t]) == FoldAll(h)
  {
    if Hits(HostPattern(h), u, hs, he) {
      var s: nat :| StartAllowed(HostPattern(h), u, hs, he, s) && Matches(h + "^", u, s, false);
      HostMatchAt(h, u, s);
      NameStaysInside(h, u, hs, he, s);
      assert CutName(u, hs, he, s, s + |h|);
    }
    if s: nat, t: nat :| CutName(u, hs, he, s, t) && FoldAll(u[s..t]) == FoldAll(h) {
      CutNameHits(h, u, hs, he, s, t);
    }
  }

  lemma CutNameHits(h: string, u: string, hs: nat, he: nat, s: nat, t: nat)
    requires IsHostSpan(u, hs, he) && AllHostChars(h) && CutName(u, hs, he, s, t) && FoldAll(u[s..t]) == FoldAll(h)
    ensures Hits(HostPattern(h), u, hs, he)
  {
    assert |u[s..t]| == |FoldAll(u[s..t])| == |h|;
    HostMatchAt(h, u, s);
    assert StartAllowed(HostPattern(h), u, hs, he, s);
  }

  // ---- where the walk reads the same ----

  /** Every host name the span is cut into is also read to the end of the span from some label. */
  ghost predicate WalkSees(u: string, hs: nat, he: nat)
  {
    hs < he <= |u| &&
    forall s: nat, t: nat :: CutName(u, hs, he, s, t) && AllHostChars(u[s..t]) ==>
                               exists i :: ReadsName(u, hs, he, i, u[s..t])
  }

  /** A span without separators. */
  predicate PlainHost(u: string, hs: nat, he: nat)
  {
    hs < he <= |u| && forall k :: hs <= k < he ==> !IsSeparator(u[k])
  }

  lemma PlainHostIsSeen(u: string, hs: nat, he: nat)
    requires PlainHost(u, hs, he)
    ensures WalkSees(u, hs, he)
  {
    forall s: nat, t: nat | CutName(u, hs, he, s, t)
      ensures ReadsName(u, hs, he, s, u[s..t])
    {
      assert t == he;
    }
  }

  lemma FoldedHostChars(v: string, h: string)
    requires FoldAll(v) == FoldAll(h) && AllHostChars(h)
    ensures AllHostChars(v) && |v| == |h|
  {
    forall k | 0 <= k < |v|
      ensures IsHostChar(v[k])
    {
      assert FoldAll(v)[k] == FoldAll(h)[k];
      FoldKeepsClasses(v[k], h[k]);
    }
  }

  /** Where it does, the walk over labels finds `h` exactly when the pattern `||h^` hits. */
  lemma HostWalkIsHostPattern(h: string, u: string, hs: nat, he: nat)
    requires IsHostSpan(u, hs, he) && WalkSees(u, hs, he) && h != "" && AllHostChars(h)
    ensures Hits(HostPattern(h), u, hs, he) <==> exists i :: ReadsName(u, hs, he, i, h)
  {
    PatternReadsCutNames(h, u, hs, he);
    if s: nat, t: nat :| CutName(u, hs, he, s, t) && FoldAll(u[s..t]) == FoldAll(h) {
      FoldedHostChars(u[s..t], h);
      var i :| ReadsName(u, hs, he, i, u[s..t]);
      assert ReadsName(u, hs, he, i, h);
    }
    if i: nat :| ReadsName(u, hs, he, i, h) {
      assert CutName(u, hs, he, i, he);
    }
  }

  /** Walk and pattern agree on h. */
  ghost predicate Agrees(h: string, u: string, hs: nat, he: nat)
  {
    Hits(HostPattern(h), u, hs, he) <==> exists i :: ReadsName(u, hs, he, i, h)
  }

  /** Exactly the non-empty spans on which walk and pattern agree about every host name. */
  lemma HostWalkExactIff(u: string, hs: nat, he: nat)
    requires IsHostSpan(u, hs, he) && hs < he
    ensures (forall h :: h != "" && AllHostChars(h) ==> Agrees(h, u, hs, he)) <==> WalkSees(u, hs, he)
  {
    if WalkSees(u, hs, he) {
      forall h | h != "" && AllHostChars(h)
        ensures Agrees(h, u, hs, he)
      {
        HostWalkIsHostPattern(h, u, hs, he);
      }
    }
    if forall h :: h != "" && AllHostChars(h) ==> Agrees(h, u, hs, he) {
      forall s: nat, t: nat | CutName(u, hs, he, s, t) && AllHostChars(u[s..t])
        ensures exists i :: ReadsName(u, hs, he, i, u[s..t])
      {
        var h := u[s..t];
        assert h != "" && Agrees(h, u, hs, he);
        CutNameHits(h, u, hs, he, s, t);
      }
    }
  }

  // ---- ports ----

  /** The span is a host name, a colon at `c` and a port without dots. */
  predicate HasPort(u: string, hs: nat, he: nat, c: nat)
  {
    && hs < c < he <= |u| && u[c] == ':' && (forall k :: hs <= k < c ==> IsHostChar(u[k]))
    && forall k :: c < k < he ==> u[k] != '.'
  }

  /** No label starts after the colon. */
  lemma LabelsBeforePort(u: string, hs: nat, he: nat, c: nat, i: nat)
    requires HasPort(u, hs, he, c) && LabelStart(u, hs, he, i)
    ensures i <= c
  {
  }

  /** With a port the walk finds no host name at all, and the pattern still hits exactly the label
      suffixes of the name before the colon. */
  lemma PortHidesHosts(u: string, hs: nat, he: nat, c: nat, h: string)
    requires IsHostSpan(u, hs, he) && HasPort(u, hs, he, c) && h != "" && AllHostChars(h)
    ensures !exists i :: ReadsName(u, hs, he, i, h)
    ensures Hits(HostPattern(h), u, hs, he) <==> exists i: nat :: i < c && ReadsName(u, hs, c, i, h)
  {
    forall i: nat | LabelStart(u, hs, he, i)
      ensures FoldAll(u[i..he]) != FoldAll(h)
    {
      LabelsBeforePort(u, hs, he, c, i);
      ColonIsNoName(u[i..he], c - i, h);
    }
    PatternReadsCutNames(h, u, hs, he);
    if s: nat, t: nat :| CutName(u, hs, he, s, t) && FoldAll(u[s..t]) == FoldAll(h) {
      LabelsBeforePort(u, hs, he, c, s);
      FoldedHostChars(u[s..t], h);
      CutAtColon(u, hs, he, c, s, t);
      assert ReadsName(u, hs, c, s, h);
    }
    if i: nat :| i < c && ReadsName(u, hs, c, i, h) {
      assert CutName(u, hs, he, i, c);
    }
  }

  lemma CutAtColon(u: string, hs: nat, he: nat, c: nat, s: nat, t: nat)
    requires HasPort(u, hs, he, c) && CutName(u, hs, he, s, t) && AllHostChars(u[s..t]) && s <= c
    ensures s < c && t == c
  {
    assert forall k :: s <= k < t ==> u[k] == u[s..t][k - s];
    assert !IsSeparator(u[c - 1]);
  }

  lemma ColonIsNoName(v: string, k: nat, h: string)
    requires k < |v| && v[k] == ':' && AllHostChars(h)
    ensures FoldAll(v) != FoldAll(h)
  {
    if k < |h| {
      assert FoldAll(v)[k] == Fold(v[k]) && FoldAll(h)[k] == Fold(h[k]) && IsHostChar(h[k]);
    }
  }
}
