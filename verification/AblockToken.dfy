/** Anchor tokens: which run of a pattern the index is keyed on, and when a URL the pattern matches
    is bound to contain that run. */
module AblockToken {
  import opened AblockChars
  import opened AblockGlob
  import opened AblockPattern

  /** s[a..b] is a maximal run of token characters. */
  predicate IsRun(s: string, a: nat, b: nat)
  {
    && a < b <= |s|
    && (forall i :: a <= i < b ==> IsTokenChar(s[i]))
    && (a == 0 || !IsTokenChar(s[a - 1]))
    && (b == |s| || !IsTokenChar(s[b]))
  }

  /** The URL holds `run` (folded) as a maximal run. */
  ghost predicate HasRun(u: string, run: string)
  {
    exists a: nat, b: nat :: IsRun(u, a, b) && FoldAll(u[a..b]) == run
  }

  // ---- choosing the token ----

  const STOP_TOKENS: set<string> :=
    {"com", "net", "org", "www", "http", "https", "html", "htm", "php", "js",
     "css", "jpg", "jpeg", "png", "gif", "svg", "webp", "index"}

  predicate TouchesStar(p: string, a: nat, b: nat)
    requires a <= b <= |p|
  {
    (a > 0 && p[a - 1] == '*') || (b < |p| && p[b] == '*')
  }

  predicate Eligible(p: string, a: nat, b: nat)
  {
    IsRun(p, a, b) && b - a >= 3 && !TouchesStar(p, a, b) && FoldAll(p[a..b]) !in STOP_TOKENS
  }

  /** The first of the longest eligible runs. */
  ghost predicate IsPick(p: string, a: nat, b: nat)
  {
    Eligible(p, a, b) && forall c: nat, d: nat :: Eligible(p, c, d) ==> d - c < b - a || (d - c == b - a && a <= c)
  }

  ghost predicate NothingToPick(p: string) { forall a: nat, b: nat :: !Eligible(p, a, b) }

  lemma RunsDoNotOverlap(s: string, a: nat, b: nat, c: nat, d: nat)
    requires IsRun(s, a, b) && IsRun(s, c, d) && c < b && a < d
    ensures a == c && b == d
  {
    assert a <= c - 1 < b || c == 0 || c <= a;
    assert c <= a - 1 < d || a == 0 || a <= c;
  }

  /** Scan for the end of the run starting at `i`. */
  method RunEnd(s: string, i: nat) returns (j: nat)
    requires i < |s| && IsTokenChar(s[i]) && (i == 0 || !IsTokenChar(s[i - 1]))
    ensures IsRun(s, i, j)
  {
    j := i;
    while j < |s| && IsTokenChar(s[j])
      invariant i <= j <= |s|
      invariant forall k :: i <= k < j ==> IsTokenChar(s[k])
    {
      j := j + 1;
    }
  }

  /** `pick_token`, up to the hash of the chosen run. */
  method PickToken(p: string) returns (found: bool, best: nat, end: nat)
    ensures found ==> IsPick(p, best, end)
    ensures !found ==> NothingToPick(p)
  {
    found, best, end := false, 0, 0;
    var i := 0;
    while i < |p|
      invariant 0 <= i <= |p|
      invariant i == 0 || i == |p| || !IsTokenChar(p[i - 1]) || !IsTokenChar(p[i])
      invariant found ==> Eligible(p, best, end) && end <= i
      invariant found ==> forall c: nat, d: nat :: Eligible(p, c, d) && c < i ==>
                  d - c < end - best || (d - c == end - best && best <= c)
      invariant !found ==> end == best == 0 && forall c: nat, d: nat :: Eligible(p, c, d) ==> i <= c
      decreases |p| - i
    {
      if !IsTokenChar(p[i]) {
        i := i + 1;
        continue;
      }
      var j := RunEnd(p, i);
      forall c: nat, d: nat | IsRun(p, c, d) && i <= c < j
        ensures c == i && d == j
      {
        RunsDoNotOverlap(p, c, d, i, j);
      }
      if j - i >= 3 && j - i > end - best && !TouchesStar(p, i, j) && FoldAll(p[i..j]) !in STOP_TOKENS {
        found, best, end := true, i, j;
      }
      i := j;
    }
  }

  // ---- when the chosen run must occur in the URL ----

  /** The run is fenced on both sides: by a pattern character that is neither token nor star, by the
      start or host anchor on the left, or by the end anchor on the right. */
  predicate Bounded(f: Pattern, a: nat, b: nat)
  {
    && IsRun(f.text, a, b) && !TouchesStar(f.text, a, b)
    && (a > 0 || f.anchor != Unanchored)
    && (b < |f.text| || f.enda)
  }

  /** A stretch of literals is matched by a stretch of the same length and text. */
  lemma {:induction false} LiteralStretch(p: string, u: string, s: nat, cuts: seq<nat>, a: nat, b: nat)
    requires Aligned(p, u, s, cuts) && a <= b <= |p|
    requires forall k :: a <= k < b ==> IsTokenChar(p[k])
    ensures cuts[b] == cuts[a] + (b - a) <= |u|
    ensures forall k :: a <= k < b ==> Fold(u[cuts[a] + (k - a)]) == Fold(p[k])
    decreases b
  {
    AlignedIsMonotone(p, u, s, cuts, a, b);
    if a < b {
      LiteralStretch(p, u, s, cuts, a, b - 1);
      assert Covers(p[b - 1], u, cuts[b - 1], cuts[b - 1 + 1]);
    }
  }

  lemma BoundedRunIsInUrl(f: Pattern, a: nat, b: nat, u: string, hs: nat, he: nat)
    requires Bounded(f, a, b) && IsHostSpan(u, hs, he) && Hits(f, u, hs, he)
    ensures HasRun(u, FoldAll(f.text[a..b]))
  {
    var p := f.text;
    var s :| StartAllowed(f, u, hs, he, s) && Matches(p, u, s, f.enda);
    var cuts :| Aligned(p, u, s, cuts) && (f.enda ==> cuts[|p|] == |u|);
    StretchText(p, u, s, cuts, a, b);
    LeftFence(f, a, b, u, hs, he, s, cuts);
    RightFence(f, a, b, u, s, cuts);
    assert IsRun(u, cuts[a], cuts[b]);
  }

  lemma StretchText(p: string, u: string, s: nat, cuts: seq<nat>, a: nat, b: nat)
    requires Aligned(p, u, s, cuts) && a < b <= |p|
    requires forall k :: a <= k < b ==> IsTokenChar(p[k])
    ensures cuts[a] < cuts[b] <= |u|
    ensures forall i :: cuts[a] <= i < cuts[b] ==> IsTokenChar(u[i])
    ensures FoldAll(u[cuts[a]..cuts[b]]) == FoldAll(p[a..b])
  {
    LiteralStretch(p, u, s, cuts, a, b);
    var x, y := cuts[a], cuts[b];
    forall i | x <= i < y
      ensures IsTokenChar(u[i]) && Fold(u[i]) == Fold(p[a + (i - x)])
    {
      FoldKeepsClasses(u[x + ((a + (i - x)) - a)], p[a + (i - x)]);
    }
  }

  lemma LeftFence(f: Pattern, a: nat, b: nat, u: string, hs: nat, he: nat, s: nat, cuts: seq<nat>)
    requires Bounded(f, a, b) && IsHostSpan(u, hs, he) && StartAllowed(f, u, hs, he, s)
    requires Aligned(f.text, u, s, cuts) && cuts[a] < cuts[b] <= |u|
    ensures cuts[a] == 0 || !IsTokenChar(u[cuts[a] - 1])
  {
    var p := f.text;
    if a > 0 {
      assert Covers(p[a - 1], u, cuts[a - 1], cuts[a - 1 + 1]);
      if cuts[a - 1] < |u| && p[a - 1] != '^' {
        FoldKeepsClasses(u[cuts[a - 1]], p[a - 1]);
      }
    }
  }

  lemma RightFence(f: Pattern, a: nat, b: nat, u: string, s: nat, cuts: seq<nat>)
    requires Bounded(f, a, b)
    requires Aligned(f.text, u, s, cuts) && (f.enda ==> cuts[|f.text|] == |u|)
    ensures cuts[b] == |u| || (cuts[b] < |u| && !IsTokenChar(u[cuts[b]]))
  {
    var p := f.text;
    if b < |p| {
      assert Covers(p[b], u, cuts[b], cuts[b + 1]);
      if cuts[b] < |u| && p[b] != '^' {
        FoldKeepsClasses(u[cuts[b]], p[b]);
      }
    }
  }

  // The converse: if no bounded occurrence exists, pad every open edge and every star with token
  // characters and the run is gone.

  ghost predicate AlwaysInUrl(f: Pattern, run: string)
  {
    forall u, hs, he :: IsHostSpan(u, hs, he) && Hits(f, u, hs, he) ==> HasRun(u, run)
  }

  ghost predicate HasBoundedOccurrence(f: Pattern, run: string)
  {
    exists a: nat, b: nat :: Bounded(f, a, b) && FoldAll(f.text[a..b]) == run
  }

  function Padding(run: string): (r: string) { seq(|run| + 1, i => 'x') }

  function Before(f: Pattern, run: string): (r: string)
  {
    match f.anchor
    case Unanchored => Padding(run)
    case AtHost => "://"
    case AtStart => ""
  }

  function After(f: Pattern, run: string): (r: string) { if f.enda then "" else Padding(run) }

  function PaddedUrl(f: Pattern, run: string): (r: string)
  {
    Before(f, run) + Instance(f.text, Padding(run), '/') + After(f, run)
  }

  /** Where the piece of pattern character `k` starts in the padded URL. */
  function PaddedCut(f: Pattern, run: string, k: nat): (r: nat)
    requires k <= |f.text|
  {
    |Before(f, run)| + CutAt(f.text, Padding(run), '/', k)
  }

  lemma PaddedPiece(f: Pattern, run: string, k: nat)
    requires k < |f.text|
    ensures PaddedCut(f, run, k) + |Piece(f.text[k], Padding(run), '/')| == PaddedCut(f, run, k + 1)
    ensures PaddedCut(f, run, k + 1) <= |PaddedUrl(f, run)|
    ensures forall q :: PaddedCut(f, run, k) <= q < PaddedCut(f, run, k + 1) ==>
                          PaddedUrl(f, run)[q] == Piece(f.text[k], Padding(run), '/')[q - PaddedCut(f, run, k)]
  {
    PieceAt(f.text, Padding(run), '/', k);
    var inst := Instance(f.text, Padding(run), '/');
    var c, d := CutAt(f.text, Padding(run), '/', k), CutAt(f.text, Padding(run), '/', k + 1);
    forall q | PaddedCut(f, run, k) <= q < PaddedCut(f, run, k + 1)
      ensures PaddedUrl(f, run)[q] == Piece(f.text[k], Padding(run), '/')[q - PaddedCut(f, run, k)]
    {
      assert inst[c..d][q - PaddedCut(f, run, k)] == inst[q - |Before(f, run)|];
    }
  }

  /** What lies past the last piece. */
  lemma PaddedEnd(f: Pattern, run: string)
    ensures PaddedCut(f, run, |f.text|) + |After(f, run)| == |PaddedUrl(f, run)|
    ensures forall q :: PaddedCut(f, run, |f.text|) <= q < |PaddedUrl(f, run)| ==> PaddedUrl(f, run)[q] == 'x'
  {
    assert f.text[..|f.text|] == f.text;
  }

  /** A run shorter than a stretch of padding does not touch it. */
  lemma ShortRunAvoidsPadding(u: string, x: nat, y: nat, g: nat, h: nat)
    requires IsRun(u, x, y) && g < h <= |u| && h - g > y - x
    requires forall i :: g <= i < h ==> u[i] == 'x'
    ensures y <= g || h <= x
  {
  }

  lemma RunIsPastPrefix(f: Pattern, run: string, x: nat, y: nat)
    requires IsRun(PaddedUrl(f, run), x, y) && y - x == |run|
    ensures PaddedCut(f, run, 0) <= x
  {
    var u, l := PaddedUrl(f, run), Before(f, run);
    assert forall i :: 0 <= i < |l| ==> u[i] == l[i];
    if f.anchor == Unanchored {
      ShortRunAvoidsPadding(u, x, y, 0, |run| + 1);
    } else {
      assert forall i :: 0 <= i < |l| ==> !IsTokenChar(u[i]);
      assert IsTokenChar(u[x]);
    }
  }

  lemma RunAvoidsStar(f: Pattern, run: string, x: nat, y: nat, k: nat)
    requires IsRun(PaddedUrl(f, run), x, y) && y - x == |run| && k < |f.text| && f.text[k] == '*'
    ensures y <= PaddedCut(f, run, k) || PaddedCut(f, run, k + 1) <= x
  {
    PaddedPiece(f, run, k);
    ShortRunAvoidsPadding(PaddedUrl(f, run), x, y, PaddedCut(f, run, k), PaddedCut(f, run, k + 1));
  }

  /** The pattern character owning a position past the prefix. */
  lemma {:induction false} Owner(f: Pattern, run: string, q: nat, k: nat) returns (i: nat)
    requires k <= |f.text| && PaddedCut(f, run, 0) <= q < PaddedCut(f, run, k)
    ensures i < k && PaddedCut(f, run, i) <= q < PaddedCut(f, run, i + 1)
    decreases k
  {
    if PaddedCut(f, run, k - 1) <= q {
      i := k - 1;
    } else {
      i := Owner(f, run, q, k - 1);
    }
  }

  /** A position of the run that starts a piece is owned by a token literal. */
  lemma RunPositionIsLiteral(f: Pattern, run: string, x: nat, y: nat, k: nat, q: nat)
    requires IsRun(PaddedUrl(f, run), x, y) && y - x == |run| && x <= q < y
    requires k < |f.text| && PaddedCut(f, run, k) <= q < PaddedCut(f, run, k + 1)
    ensures PaddedCut(f, run, k) == q && PaddedCut(f, run, k + 1) == q + 1
    ensures IsTokenChar(f.text[k]) && f.text[k] == PaddedUrl(f, run)[q]
  {
    PaddedPiece(f, run, k);
    assert IsTokenChar(PaddedUrl(f, run)[q]);
    if f.text[k] == '*' {
      RunAvoidsStar(f, run, x, y, k);
    } else {
      assert |Piece(f.text[k], Padding(run), '/')| == 1;
    }
  }

  /** A run meets no star, so its positions are owned by consecutive pattern characters that spell it. */
  lemma {:induction false} RunIsConsecutive(f: Pattern, run: string, x: nat, y: nat, i: nat, n: nat)
    requires IsRun(PaddedUrl(f, run), x, y) && y - x == |run| && n <= y - x
    requires i <= |f.text| && PaddedCut(f, run, i) == x && y <= PaddedCut(f, run, |f.text|)
    ensures i + n <= |f.text| && PaddedCut(f, run, i + n) == x + n
    ensures f.text[i..i + n] == PaddedUrl(f, run)[x..x + n]
    decreases n
  {
    if n > 0 {
      RunIsConsecutive(f, run, x, y, i, n - 1);
      OwnsOne(f, run, x, y, i + n - 1, x + n - 1);
      SliceStep(f.text, i, PaddedUrl(f, run), x, n);
    }
  }

  lemma SliceStep(s: string, i: nat, t: string, x: nat, n: nat)
    requires 0 < n && i + n <= |s| && x + n <= |t|
    requires s[i..i + n - 1] == t[x..x + n - 1] && s[i + n - 1] == t[x + n - 1]
    ensures s[i..i + n] == t[x..x + n]
  {
    assert s[i..i + n] == s[i..i + n - 1] + [s[i + n - 1]];
    assert t[x..x + n] == t[x..x + n - 1] + [t[x + n - 1]];
  }

  lemma OwnsOne(f: Pattern, run: string, x: nat, y: nat, k: nat, q: nat)
    requires IsRun(PaddedUrl(f, run), x, y) && y - x == |run| && x <= q < y
    requires k < |f.text| && PaddedCut(f, run, k) == q
    ensures PaddedCut(f, run, k + 1) == q + 1
    ensures IsTokenChar(f.text[k]) && f.text[k] == PaddedUrl(f, run)[q]
  {
    PaddedPiece(f, run, k);
    RunPositionIsLiteral(f, run, x, y, k, q);
  }

  /** A run of the padded URL starts at a pattern character. */
  lemma RunStartsInPattern(f: Pattern, run: string, x: nat, y: nat) returns (i: nat)
    requires IsRun(PaddedUrl(f, run), x, y) && y - x == |run|
    ensures i < |f.text| && PaddedCut(f, run, i) == x && y <= PaddedCut(f, run, |f.text|)
  {
    RunIsPastPrefix(f, run, x, y);
    PaddedEnd(f, run);
    var last := PaddedCut(f, run, |f.text|);
    if !f.enda {
      ShortRunAvoidsPadding(PaddedUrl(f, run), x, y, last, |PaddedUrl(f, run)|);
    }
    i := Owner(f, run, x, |f.text|);
    RunPositionIsLiteral(f, run, x, y, i, x);
  }

  /** Its ends are fenced in the pattern. */
  lemma PaddedLeft(f: Pattern, run: string, i: nat)
    requires i < |f.text| && PaddedCut(f, run, i) <= |PaddedUrl(f, run)|
    requires (PaddedCut(f, run, i) == 0 || !IsTokenChar(PaddedUrl(f, run)[PaddedCut(f, run, i) - 1]))
    ensures if i == 0 then f.anchor != Unanchored else f.text[i - 1] != '*' && !IsTokenChar(f.text[i - 1])
  {
    var u := PaddedUrl(f, run);
    if i == 0 {
      assert PaddedCut(f, run, 0) == |Before(f, run)|;
    } else {
      PaddedPiece(f, run, i - 1);
      var q := PaddedCut(f, run, i) - 1;
      assert u[q] == Piece(f.text[i - 1], Padding(run), '/')[q - PaddedCut(f, run, i - 1)];
    }
  }

  lemma PaddedRight(f: Pattern, run: string, j: nat)
    requires j <= |f.text|
    requires PaddedCut(f, run, j) >= |PaddedUrl(f, run)| || !IsTokenChar(PaddedUrl(f, run)[PaddedCut(f, run, j)])
    ensures if j == |f.text| then f.enda else f.text[j] != '*' && !IsTokenChar(f.text[j])
  {
    var u := PaddedUrl(f, run);
    PaddedEnd(f, run);
    if j < |f.text| {
      PaddedPiece(f, run, j);
      assert u[PaddedCut(f, run, j)] == Piece(f.text[j], Padding(run), '/')[0];
    }
  }

  lemma FencedIsRun(p: string, i: nat, j: nat, w: string)
    requires i < j <= |p| && p[i..j] == w && forall k :: 0 <= k < |w| ==> IsTokenChar(w[k])
    requires i == 0 || !IsTokenChar(p[i - 1])
    requires j == |p| || !IsTokenChar(p[j])
    ensures IsRun(p, i, j)
  {
    forall k | i <= k < j ensures IsTokenChar(p[k]) {
      assert p[k] == p[i..j][k - i];
    }
  }

  /** A run of the padded URL spells a stretch of the pattern. */
  lemma RunInPattern(f: Pattern, run: string, x: nat, y: nat) returns (i: nat)
    requires IsRun(PaddedUrl(f, run), x, y) && y - x == |run|
    ensures i < |f.text| && i + |run| <= |f.text| && PaddedCut(f, run, i) == x && PaddedCut(f, run, i + |run|) == y
    ensures f.text[i..i + |run|] == PaddedUrl(f, run)[x..y]
  {
    i := RunStartsInPattern(f, run, x, y);
    RunIsConsecutive(f, run, x, y, i, |run|);
  }

  lemma RunIsFenced(f: Pattern, run: string, x: nat, y: nat, i: nat, j: nat)
    requires IsRun(PaddedUrl(f, run), x, y)
    requires i < j <= |f.text| && PaddedCut(f, run, i) == x && PaddedCut(f, run, j) == y
    ensures if i == 0 then f.anchor != Unanchored else f.text[i - 1] != '*' && !IsTokenChar(f.text[i - 1])
    ensures if j == |f.text| then f.enda else f.text[j] != '*' && !IsTokenChar(f.text[j])
  {
    PaddedLeft(f, run, i);
    PaddedRight(f, run, j);
  }

  lemma SliceIsTokens(u: string, x: nat, y: nat)
    requires IsRun(u, x, y)
    ensures forall k :: 0 <= k < |u[x..y]| ==> IsTokenChar(u[x..y][k])
  {
  }

  lemma PaddedRunIsBounded(f: Pattern, run: string)
    requires run != "" && HasRun(PaddedUrl(f, run), run)
    ensures HasBoundedOccurrence(f, run)
  {
    var u := PaddedUrl(f, run);
    var x: nat, y: nat :| IsRun(u, x, y) && FoldAll(u[x..y]) == run;
    var i := RunInPattern(f, run, x, y);
    RunIsFenced(f, run, x, y, i, i + |run|);
    SliceIsTokens(u, x, y);
    FencedIsBounded(f, i, i + |run|, u[x..y]);
  }

  lemma FencedIsBounded(f: Pattern, i: nat, j: nat, w: string)
    requires i < j <= |f.text| && f.text[i..j] == w && forall k :: 0 <= k < |w| ==> IsTokenChar(w[k])
    requires if i == 0 then f.anchor != Unanchored else f.text[i - 1] != '*' && !IsTokenChar(f.text[i - 1])
    requires if j == |f.text| then f.enda else f.text[j] != '*' && !IsTokenChar(f.text[j])
    ensures Bounded(f, i, j)
  {
    FencedIsRun(f.text, i, j, w);
  }

  lemma SpanExists(u: string) returns (hs: nat, he: nat)
    ensures IsHostSpan(u, hs, he)
  {
    hs, he := 0, 0;
    if exists i :: SchemeAt(u, i) {
      var i := 0;
      while !SchemeAt(u, i)
        invariant 0 <= i && forall k :: SchemeAt(u, k) ==> i <= k
        decreases |u| - i
      {
        i := i + 1;
      }
      hs, he := i + 3, i + 3;
      while he < |u| && !EndsHost(u[he])
        invariant hs <= he <= |u| && forall k :: hs <= k < he ==> !EndsHost(u[k])
      {
        he := he + 1;
      }
    }
  }

  lemma PaddedUrlIsHit(f: Pattern, run: string) returns (hs: nat, he: nat)
    ensures IsHostSpan(PaddedUrl(f, run), hs, he) && Hits(f, PaddedUrl(f, run), hs, he)
  {
    var u := PaddedUrl(f, run);
    hs, he := SpanExists(u);
    var start := |Before(f, run)|;
    var cuts := InstanceAligned(f.text, Padding(run), '/', Before(f, run), After(f, run));
    assert Matches(f.text, u, start, f.enda);
    if f.anchor == AtHost {
      assert SchemeAt(u, 0);
    }
    assert StartAllowed(f, u, hs, he, start);
  }

  /** Exactly when every URL a pattern matches holds the run: when the pattern has a bounded
      occurrence of it. */
  lemma TokenGuaranteeIff(f: Pattern, run: string)
    requires run != ""
    ensures AlwaysInUrl(f, run) <==> HasBoundedOccurrence(f, run)
  {
    if HasBoundedOccurrence(f, run) {
      var a: nat, b: nat :| Bounded(f, a, b) && FoldAll(f.text[a..b]) == run;
      forall u, hs, he | IsHostSpan(u, hs, he) && Hits(f, u, hs, he)
        ensures HasRun(u, run)
      {
        BoundedRunIsInUrl(f, a, b, u, hs, he);
      }
    }
    if AlwaysInUrl(f, run) {
      var hs, he := PaddedUrlIsHit(f, run);
      PaddedRunIsBounded(f, run);
    }
  }

  /** The shape the guarantee misses: `/banner` is keyed on "banner" and matches `/banners`, which has
      no such run. */
  lemma BannerMissesBanners()
    ensures IsPick("/banner", 1, 7)
    ensures Hits(Pattern("/banner", Unanchored, false, '/'), "/banners", 0, 0)
    ensures !HasRun("/banners", "banner")
  {
    var p, u := "/banner", "/banners";
    assert IsRun(p, 1, 7) && Eligible(p, 1, 7);
    forall c: nat, d: nat | Eligible(p, c, d) ensures c == 1 && d == 7 {
      assert c != 0;
      RunsDoNotOverlap(p, c, d, 1, 7);
    }
    assert Aligned(p, u, 0, [0, 1, 2, 3, 4, 5, 6, 7]);
    assert Matches(p, u, 0, false);
    assert StartAllowed(Pattern(p, Unanchored, false, '/'), u, 0, 0, 0);
    assert IsRun(u, 1, 8);
    forall a: nat, b: nat | IsRun(u, a, b) ensures FoldAll(u[a..b]) != "banner" {
      assert a != 0;
      RunsDoNotOverlap(u, a, b, 1, 8);
    }
  }
}
