/** The physical frame allocator of src/mem/paging.c: 2560 frames of 2 MiB, packed into 40 words of
    64 bits, a one meaning that the frame is free.

    Each of `paging_alloc_pages` and `paging_free_pages` appears twice: as it is written, and in the
    variant that its evident intent calls for.  The lemmas say exactly when the two agree. */
module Frames {
  import opened BitMath
  import opened Regions

  const MAX_PAGES: nat := 2560
  const BUCKET_COUNT: nat := 40

  /** The bitmap as a sequence, word by word: which frames are free. */
  ghost function FramesOf(words: seq<nat>): (f: seq<bool>)
    ensures |f| == 64 * |words|
  {
    if words == [] then []
    else
      var last := |words| - 1;
      FramesOf(words[..last]) + seq(64, i requires 0 <= i < 64 => TestBit(words[last], i))
  }

  /** n consecutive free frames from i on. */
  ghost predicate RunAt(f: seq<bool>, i: nat, n: nat) {
    i + n <= |f| && forall k :: i <= k < i + n ==> f[k]
  }

  ghost predicate NoRunBefore(f: seq<bool>, p: nat, n: nat) {
    forall j: nat {:trigger RunAt(f, j, n)} :: j + n <= p ==> !RunAt(f, j, n)
  }

  /** Nowhere n consecutive free frames. */
  ghost predicate NoRun(f: seq<bool>, n: nat) {
    NoRunBefore(f, |f|, n)
  }

  /** The lowest-address first fit. */
  ghost predicate FirstFit(f: seq<bool>, i: nat, n: nat) {
    RunAt(f, i, n) && forall j: nat {:trigger RunAt(f, j, n)} :: j < i ==> !RunAt(f, j, n)
  }

  /** The bitmap with the frames from i to j all set to one state. */
  ghost function Filled(f: seq<bool>, i: nat, j: nat, state: bool): (g: seq<bool>)
    ensures |g| == |f|
    ensures forall k :: 0 <= k < |f| ==> g[k] == if i <= k < j then state else f[k]
  {
    seq(|f|, k requires 0 <= k < |f| => if i <= k < j then state else f[k])
  }

  lemma {:induction false} FrameOfBit(words: seq<nat>, b: nat, i: nat)
    requires b < |words| && i < 64
    ensures FramesOf(words)[64 * b + i] <==> TestBit(words[b], i)
  {
    if b < |words| - 1 {
      FrameOfBit(words[..|words| - 1], b, i);
    }
  }

  /** Frame p is bit p % 64 of word p / 64. */
  lemma FrameIsBit(words: seq<nat>, p: nat)
    requires p < 64 * |words|
    ensures FramesOf(words)[p] <==> TestBit(words[p / 64], p % 64)
  {
    FrameOfBit(words, p / 64, p % 64);
  }

  lemma ChangeBit(words: seq<nat>, p: nat, state: bool)
    requires p < 64 * |words|
    ensures var b, i := p / 64, p % 64;
            var w := if state then SetBit(words[b], i) else ClearBit(words[b], i);
            FramesOf(words[b := w]) == FramesOf(words)[p := state]
  {
    var b, i := p / 64, p % 64;
    var w := if state then SetBit(words[b], i) else ClearBit(words[b], i);
    var f, g := FramesOf(words)[p := state], FramesOf(words[b := w]);
    forall q | 0 <= q < |f|
      ensures g[q] == f[q]
    {
      FrameIsBit(words, q);
      FrameIsBit(words[b := w], q);
      BitsAfterSet(words[b], i, q % 64);
      BitsAfterClear(words[b], i, q % 64);
    }
  }

  lemma ZeroWord(words: seq<nat>, b: nat)
    requires b < |words| && words[b] == 0
    ensures forall p :: 64 * b <= p < 64 * b + 64 ==> !FramesOf(words)[p]
  {
    forall p | 64 * b <= p < 64 * b + 64
      ensures !FramesOf(words)[p]
    {
      FrameOfBit(words, b, p - 64 * b);
      BitsOfZero(p - 64 * b);
    }
  }

  // ----- the scan as intended

  /** Having looked at the frames below p: the n frames below p, from c on, are free, n is less than
      the count sought, the run cannot be longer, and no run below p is long enough. */
  ghost predicate Scanned(f: seq<bool>, p: nat, c: nat, n: nat, count: nat) {
    && p <= |f| && c + n == p && n < count
    && RunAt(f, c, n) && (c > 0 ==> !f[c - 1])
    && NoRunBefore(f, p, count)
  }

  lemma ScanFree(f: seq<bool>, p: nat, c: nat, n: nat, count: nat)
    requires Scanned(f, p, c, n, count) && p < |f| && f[p]
    ensures n + 1 < count ==> Scanned(f, p + 1, c, n + 1, count)
    ensures n + 1 == count ==> FirstFit(f, c, count)
  {
    forall j: nat | j < c && j + count > p && j + count <= |f|
      ensures !RunAt(f, j, count)
    {
      assert j <= c - 1 < j + count;
    }
  }

  lemma ScanUsed(f: seq<bool>, p: nat, q: nat, c: nat, n: nat, count: nat)
    requires Scanned(f, p, c, n, count) && p < q <= |f|
    requires forall k :: p <= k < q ==> !f[k]
    ensures Scanned(f, q, q, 0, count)
  {
    forall j: nat | j + count <= q && j + count > p
      ensures !RunAt(f, j, count)
    {
      assert !f[j + count - 1];
    }
  }

  // ----- the scan as written

  ghost predicate UsedIn(f: seq<bool>, i: int, j: nat, below: nat) {
    exists u: nat :: i <= u <= j && u < below <= |f| && !f[u]
  }

  /** Having looked at the frames below p, with counter n and candidate c: no run that ends at p is
      longer than n, none below p is long enough, and the frames [c, c + n) lie below p.  Unless all
      frames below p are free, a used frame lies in [c, c + n]; and unless c is 0 it is a used frame
      itself. */
  ghost predicate ScannedAsWritten(f: seq<bool>, p: nat, c: nat, n: nat, count: nat) {
    && p <= |f| && c + n <= p && n < count && (c > 0 ==> c < p)
    && (n == p || UsedIn(f, p - n - 1, p, p))
    && NoRunBefore(f, p, count) && (c == 0 || !f[c])
    && ((c == 0 && n == p && RunAt(f, 0, p)) || UsedIn(f, c, c + n, p))
  }

  /** What a scan as written that stops at a candidate c has found: the range is free exactly when
      the first `count` frames are, and then it is those; it starts at frame 0 or at a used frame,
      and there is a free frame from there on. */
  ghost predicate FoundAsWritten(f: seq<bool>, c: nat, count: nat) {
    && c + count <= |f|
    && (RunAt(f, c, count) <==> RunAt(f, 0, count)) && (RunAt(f, 0, count) ==> c == 0)
    && (c == 0 || !f[c]) && exists p :: c <= p < |f| && f[p]
  }

  lemma ScanFreeAsWritten(f: seq<bool>, p: nat, c: nat, n: nat, count: nat)
    requires ScannedAsWritten(f, p, c, n, count) && p < |f| && f[p]
    ensures n + 1 < count ==> ScannedAsWritten(f, p + 1, c, n + 1, count)
    ensures n + 1 == count ==> FoundAsWritten(f, c, count)
  {
    Widen(f, p - n - 1, p, p, p + 1, p + 1);
    Widen(f, c, c + n, p, c + n + 1, p + 1);
    if n + 1 < count {
      forall j: nat | j + count <= p + 1
        ensures !RunAt(f, j, count)
      {
        if n != p {
          var u: nat :| p - n - 1 <= u <= p && u < p <= |f| && !f[u];
          assert j + count == p + 1 ==> j <= u < j + count;
        }
      }
    } else {
      if UsedIn(f, c, c + n, p) {
        var u: nat :| c <= u <= c + n && u < p <= |f| && !f[u];
        assert !RunAt(f, c, count);
        assert RunAt(f, 0, count) ==> count > p;
      }
    }
  }

  lemma Widen(f: seq<bool>, i: int, j: nat, below: nat, j': nat, below': nat)
    requires j <= j' && below <= below' <= |f|
    ensures UsedIn(f, i, j, below) ==> UsedIn(f, i, j', below')
  {
    if UsedIn(f, i, j, below) {
      var u: nat :| i <= u <= j && u < below <= |f| && !f[u];
      assert i <= u <= j' && u < below' <= |f| && !f[u];
    }
  }

  /** A used frame makes itself the candidate. */
  lemma ScanUsedAsWritten(f: seq<bool>, p: nat, c: nat, n: nat, count: nat)
    requires ScannedAsWritten(f, p, c, n, count) && p < |f| && !f[p]
    ensures ScannedAsWritten(f, p + 1, p, 0, count)
  {
    assert p <= p <= p && p < p + 1 <= |f| && !f[p];
    forall j: nat | j + count == p + 1
      ensures !RunAt(f, j, count)
    {
      assert !f[j + count - 1];
    }
  }

  /** A word of used frames is passed over without touching counter and candidate. */
  lemma SkipAsWritten(f: seq<bool>, p: nat, q: nat, c: nat, n: nat, count: nat)
    requires ScannedAsWritten(f, p, c, n, count) && p < q <= |f|
    requires forall k :: p <= k < q ==> !f[k]
    ensures ScannedAsWritten(f, q, c, n, count)
  {
    assert !f[q - 1];
    Widen(f, c, c + n, p, c + n, q);
    if c == 0 && n == p {
      assert !f[p] && 0 <= p <= n;
    }
    forall j: nat | j + count <= q && j + count > p
      ensures !RunAt(f, j, count)
    {
      assert !f[j + count - 1];
    }
  }

  /** The words that are not 0, which the scan as written looks at. */
  ghost function NonZero(words: seq<nat>): (packed: seq<nat>)
    ensures |packed| <= |words|
  {
    if words == [] then []
    else
      var last := |words| - 1;
      NonZero(words[..last]) + (if words[last] == 0 then [] else [words[last]])
  }

  lemma NonZeroStep(words: seq<nat>, b: nat)
    requires b < |words|
    ensures NonZero(words[..b + 1]) == NonZero(words[..b]) + (if words[b] == 0 then [] else [words[b]])
  {
    assert words[..b + 1][..b] == words[..b];
  }

  lemma {:induction false} NonZeroPrefix(words: seq<nat>, b: nat)
    requires b <= |words|
    ensures NonZero(words[..b]) <= NonZero(words)
    decreases |words| - b
  {
    if b == |words| {
      assert words[..b] == words;
    } else {
      NonZeroStep(words, b);
      NonZeroPrefix(words, b + 1);
    }
  }

  /** How many of the first b words are not 0. */
  ghost function Rank(words: seq<nat>, b: nat): nat
    requires b <= |words|
  {
    |NonZero(words[..b])|
  }

  lemma RankStep(words: seq<nat>, b: nat)
    requires b < |words|
    ensures Rank(words, b + 1) == Rank(words, b) + (if words[b] == 0 then 0 else 1)
    ensures words[b] != 0 ==> Rank(words, b) < |NonZero(words)| && NonZero(words)[Rank(words, b)] == words[b]
  {
    NonZeroStep(words, b);
    NonZeroPrefix(words, b + 1);
    if words[b] != 0 {
      assert NonZero(words[..b + 1])[Rank(words, b)] == words[b];
    }
  }

  lemma PackedBit(words: seq<nat>, b: nat, i: nat)
    requires b < |words| && words[b] != 0 && i < 64
    ensures var g, q := FramesOf(NonZero(words)), 64 * Rank(words, b) + i;
            q < |g| && (g[q] <==> TestBit(words[b], i))
  {
    RankStep(words, b);
    FrameOfBit(NonZero(words), Rank(words, b), i);
  }

  /** The counter of a scan that has looked at q frames is the length of the run that ends there. */
  ghost predicate Counted(g: seq<bool>, q: nat, run: nat, count: nat) {
    run <= q && Scanned(g, q, q - run, run, count)
  }

  lemma CountFree(g: seq<bool>, q: nat, run: nat, count: nat)
    requires q < |g| && g[q] && Counted(g, q, run, count)
    ensures run + 1 < count ==> Counted(g, q + 1, run + 1, count)
    ensures run + 1 >= count ==> run + 1 == count && !NoRun(g, count) && FirstFit(g, q - run, count)
  {
    ScanFree(g, q, q - run, run, count);
  }

  lemma CountUsed(g: seq<bool>, q: nat, run: nat, count: nat)
    requires q < |g| && !g[q] && Counted(g, q, run, count)
    ensures Counted(g, q + 1, 0, count)
  {
    ScanUsed(g, q, q + 1, q - run, run, count);
  }

  /** Frame u is in use, and in a word that is not 0, so the scan as written looks at it. */
  ghost predicate SeenInUse(words: seq<nat>, u: nat) {
    u < 64 * |words| && words[u / 64] != 0 && !FramesOf(words)[u]
  }

  ghost predicate NoneSeen(words: seq<nat>, p: nat) {
    forall u: nat {:trigger SeenInUse(words, u)} :: u < p ==> !SeenInUse(words, u)
  }

  /** c is the last such frame below p, or 0 if there is none. */
  ghost predicate LastSeen(words: seq<nat>, p: nat, c: nat) {
    && (c == 0 || (c < p && SeenInUse(words, c)))
    && forall u: nat {:trigger SeenInUse(words, u)} :: u < p && SeenInUse(words, u) ==> u <= c
  }

  /** The lowest first fit in the words that are not 0, put side by side, ends with frame p. */
  ghost predicate FitEndsAt(words: seq<nat>, p: nat, count: nat) {
    && p < 64 * |words| && words[p / 64] != 0
    && var q := 64 * Rank(words, p / 64) + p % 64;
       q + 1 >= count > 0 && FirstFit(FramesOf(NonZero(words)), q + 1 - count, count)
  }

  /** What the scan as written hands out starts at the last frame in use that it has seen. */
  ghost predicate GrantStart(words: seq<nat>, c: nat, count: nat) {
    exists p {:trigger FitEndsAt(words, p, count)} :: FitEndsAt(words, p, count) && LastSeen(words, p, c)
  }

  lemma SeenFrame(words: seq<nat>, b: nat, i: nat)
    requires b < |words| && i < 64
    ensures SeenInUse(words, 64 * b + i) <==> words[b] != 0 && !TestBit(words[b], i)
  {
    FrameOfBit(words, b, i);
    DivModUnique(64 * b + i, 64, b, i);
  }

  lemma LastSeenStep(words: seq<nat>, b: nat, i: nat, c: nat)
    requires b < |words| && i < 64 && words[b] != 0 && LastSeen(words, 64 * b + i, c)
    ensures LastSeen(words, 64 * b + i + 1, if TestBit(words[b], i) then c else 64 * b + i)
  {
    SeenFrame(words, b, i);
  }

  lemma LastSeenSkip(words: seq<nat>, b: nat, c: nat)
    requires b < |words| && words[b] == 0 && LastSeen(words, 64 * b, c)
    ensures LastSeen(words, 64 * b + 64, c)
  {
    forall u: nat | 64 * b <= u < 64 * b + 64
      ensures !SeenInUse(words, u)
    {
      SeenFrame(words, b, u - 64 * b);
    }
  }

  lemma NoneSeenSkip(words: seq<nat>, b: nat)
    requires b < |words| && words[b] == 0 && NoneSeen(words, 64 * b)
    ensures NoneSeen(words, 64 * b + 64)
  {
    forall u: nat | 64 * b <= u < 64 * b + 64
      ensures !SeenInUse(words, u)
    {
      SeenFrame(words, b, u - 64 * b);
    }
  }

  lemma FitEnds(words: seq<nat>, b: nat, i: nat, count: nat)
    requires b < |words| && words[b] != 0 && i < 64
    requires 64 * Rank(words, b) + i + 1 >= count > 0
    requires FirstFit(FramesOf(NonZero(words)), 64 * Rank(words, b) + i + 1 - count, count)
    ensures FitEndsAt(words, 64 * b + i, count)
  {
    DivModUnique(64 * b + i, 64, b, i);
  }

  lemma {:induction false} RankMonotone(words: seq<nat>, a: nat, b: nat)
    requires a <= b <= |words|
    ensures Rank(words, a) <= Rank(words, b)
    decreases b
  {
    if a < b {
      RankStep(words, b - 1);
      RankMonotone(words, a, b - 1);
    }
  }

  /** Words that are not 0 have different ranks. */
  lemma RankInjective(words: seq<nat>, a: nat, b: nat)
    requires a < |words| && b < |words| && words[a] != 0 && words[b] != 0 && Rank(words, a) == Rank(words, b)
    ensures a == b
  {
    RankStep(words, a);
    RankStep(words, b);
    if a < b {
      RankMonotone(words, a + 1, b);
    } else if b < a {
      RankMonotone(words, b + 1, a);
    }
  }

  lemma FirstFitIsUnique(f: seq<bool>, i: nat, j: nat, n: nat)
    requires FirstFit(f, i, n) && FirstFit(f, j, n)
    ensures i == j
  {
  }

  lemma FitEndIsUnique(words: seq<nat>, p: nat, q: nat, count: nat)
    requires FitEndsAt(words, p, count) && FitEndsAt(words, q, count)
    ensures p == q
  {
    var i, j := 64 * Rank(words, p / 64) + p % 64, 64 * Rank(words, q / 64) + q % 64;
    FirstFitIsUnique(FramesOf(NonZero(words)), i + 1 - count, j + 1 - count, count);
    RankInjective(words, p / 64, q / 64);
  }

  /** So the frame that a grant starts at is determined by the bitmap and the number of pages. */
  lemma GrantStartIsUnique(words: seq<nat>, c: nat, d: nat, count: nat)
    requires GrantStart(words, c, count) && GrantStart(words, d, count)
    ensures c == d
  {
    var p :| FitEndsAt(words, p, count) && LastSeen(words, p, c);
    var q :| FitEndsAt(words, q, count) && LastSeen(words, q, d);
    FitEndIsUnique(words, p, q, count);
    assert SeenInUse(words, c) || c == 0;
    assert SeenInUse(words, d) || d == 0;
  }

  lemma RankZero(words: seq<nat>)
    ensures Rank(words, 0) == 0
  {
    assert words[..0] == [];
  }

  /** In the first word b that is not 0, the frames from m on are free and those before it are not. */
  ghost predicate FirstFree(words: seq<nat>, b: nat, m: nat, count: nat) {
    && b < |words| && words[b] != 0 && Rank(words, b) == 0
    && m + count <= 64 && 0 < count
    && (forall i :: 0 <= i < m ==> !TestBit(words[b], i))
    && (forall i :: m <= i < m + count ==> TestBit(words[b], i))
  }

  lemma FirstFreeIn(words: seq<nat>, b: nat, m: nat, count: nat)
    requires b < |words| && Rank(words, b) == 0 && 0 < count && m + count <= 64
    requires forall p :: 64 * b <= p < 64 * b + m ==> !FramesOf(words)[p]
    requires RunAt(FramesOf(words), 64 * b + m, count)
    ensures FirstFree(words, b, m, count)
  {
    forall i | 0 <= i < m + count
      ensures TestBit(words[b], i) <==> m <= i
    {
      FrameOfBit(words, b, i);
    }
    if words[b] == 0 {
      BitsOfZero(m);
    }
  }

  lemma FitBehindUsed(g: seq<bool>, m: nat, count: nat)
    requires m + count <= |g| && count > 0
    requires (forall i :: 0 <= i < m ==> !g[i]) && (forall i :: m <= i < m + count ==> g[i])
    ensures FirstFit(g, m, count)
  {
    forall j: nat | j < m
      ensures !RunAt(g, j, count)
    {
      assert !g[j];
    }
  }

  lemma FirstFreeFits(words: seq<nat>, b: nat, m: nat, count: nat)
    requires FirstFree(words, b, m, count)
    ensures FitEndsAt(words, 64 * b + (m + count - 1), count)
  {
    var g := FramesOf(NonZero(words));
    forall i | 0 <= i < 64
      ensures |g| >= 64 && g[i] == TestBit(words[b], i)
    {
      PackedBit(words, b, i);
    }
    PackedBit(words, b, 63);
    FitBehindUsed(g, m, count);
    FitEnds(words, b, m + count - 1, count);
  }

  /** Then a grant of so many frames starts one frame too low, at a frame in use. */
  lemma GrantStartsTooLow(words: seq<nat>, b: nat, m: nat, c: nat, count: nat)
    requires GrantStart(words, c, count) && FirstFree(words, b, m, count) && m > 0
    ensures c == 64 * b + m - 1
  {
    var p :| FitEndsAt(words, p, count) && LastSeen(words, p, c);
    FirstFreeFits(words, b, m, count);
    FitEndIsUnique(words, p, 64 * b + (m + count - 1), count);
    LastSeenBefore(words, b, m, m + count - 1, c);
  }

  lemma LastSeenBefore(words: seq<nat>, b: nat, m: nat, i: nat, c: nat)
    requires b < |words| && words[b] != 0 && 0 < m <= i < 64 && LastSeen(words, 64 * b + i, c)
    requires !TestBit(words[b], m - 1) && forall j :: m <= j < i ==> TestBit(words[b], j)
    ensures c == 64 * b + m - 1
  {
    SeenFrame(words, b, m - 1);
    if c >= 64 * b + m {
      SeenFrame(words, b, c - 64 * b);
      assert false;
    }
  }

  /** What the scan as written knows when it has looked at p frames, q of them in words that are not
      0, on the whole bitmap and on those words. */
  ghost predicate LookedAt(words: seq<nat>, p: nat, q: nat, c: nat, run: nat, count: nat) {
    && ScannedAsWritten(FramesOf(words), p, c, run, count)
    && Counted(FramesOf(NonZero(words)), q, run, count)
    && LastSeen(words, p, c)
  }

  ghost predicate Looked(words: seq<nat>, b: nat, i: nat, c: nat, run: nat, count: nat)
    requires b <= |words|
  {
    if count == 0 then NoneSeen(words, 64 * b + i)
    else LookedAt(words, 64 * b + i, 64 * Rank(words, b) + i, c, run, count)
  }

  ghost predicate Found(words: seq<nat>, c: nat, count: nat) {
    if count == 0 then SeenInUse(words, c) && NoneSeen(words, c)
    else
      && FoundAsWritten(FramesOf(words), c, count) && !NoRun(FramesOf(NonZero(words)), count)
      && GrantStart(words, c, count)
  }

  lemma LookFree(words: seq<nat>, b: nat, i: nat, c: nat, run: nat, count: nat)
    requires b < |words| && i < 64 && TestBit(words[b], i) && words[b] != 0
    requires Looked(words, b, i, c, run, count)
    ensures run + 1 == count ==> Found(words, c, count)
    ensures run + 1 != count ==> Looked(words, b, i + 1, c, run + 1, count)
  {
    FrameOfBit(words, b, i);
    PackedBit(words, b, i);
    if count > 0 {
      ScanFreeAsWritten(FramesOf(words), 64 * b + i, c, run, count);
      CountFree(FramesOf(NonZero(words)), 64 * Rank(words, b) + i, run, count);
      LastSeenStep(words, b, i, c);
      if run + 1 == count {
        FitEnds(words, b, i, count);
      }
    } else {
      SeenFrame(words, b, i);
    }
  }

  lemma LookUsed(words: seq<nat>, b: nat, i: nat, c: nat, run: nat, count: nat)
    requires b < |words| && i < 64 && !TestBit(words[b], i) && words[b] != 0
    requires Looked(words, b, i, c, run, count)
    ensures if count == 0 then Found(words, 64 * b + i, 0) else Looked(words, b, i + 1, 64 * b + i, 0, count)
  {
    FrameOfBit(words, b, i);
    PackedBit(words, b, i);
    SeenFrame(words, b, i);
    if count > 0 {
      ScanUsedAsWritten(FramesOf(words), 64 * b + i, c, run, count);
      CountUsed(FramesOf(NonZero(words)), 64 * Rank(words, b) + i, run, count);
      LastSeenStep(words, b, i, c);
    }
  }

  lemma Look(words: seq<nat>, b: nat, i: nat, c: nat, run: nat, count: nat)
    requires b < |words| && i < 64 && words[b] != 0 && Looked(words, b, i, c, run, count)
    ensures TestBit(words[b], i) ==>
              if run + 1 == count then Found(words, c, count) else Looked(words, b, i + 1, c, run + 1, count)
    ensures !TestBit(words[b], i) ==>
              if count == 0 then Found(words, 64 * b + i, 0) else Looked(words, b, i + 1, 64 * b + i, 0, count)
  {
    if TestBit(words[b], i) {
      LookFree(words, b, i, c, run, count);
    } else {
      LookUsed(words, b, i, c, run, count);
    }
  }

  lemma NextRank(words: seq<nat>, b: nat)
    requires b < |words|
    ensures Rank(words, b + 1) == Rank(words, b) + (if words[b] == 0 then 0 else 1)
  {
    RankStep(words, b);
  }

  lemma LookPast(words: seq<nat>, b: nat, p: nat, q: nat, c: nat, run: nat, count: nat)
    requires b < |words| && words[b] == 0 && p == 64 * b && LookedAt(words, p, q, c, run, count)
    ensures LookedAt(words, p + 64, q, c, run, count)
  {
    ZeroWord(words, b);
    SkipAsWritten(FramesOf(words), p, p + 64, c, run, count);
    LastSeenSkip(words, b, c);
  }

  lemma LookNextZero(words: seq<nat>, b: nat, c: nat, run: nat, count: nat)
    requires b < |words| && words[b] == 0 && Looked(words, b, 0, c, run, count)
    ensures Looked(words, b + 1, 0, c, run, count)
  {
    if count > 0 {
      NextRank(words, b);
      LookPast(words, b, 64 * b, 64 * Rank(words, b), c, run, count);
    } else {
      NoneSeenSkip(words, b);
    }
  }

  lemma LookNextFull(words: seq<nat>, b: nat, c: nat, run: nat, count: nat)
    requires b < |words| && words[b] != 0 && Looked(words, b, 64, c, run, count)
    ensures Looked(words, b + 1, 0, c, run, count)
  {
    NextRank(words, b);
  }

  lemma LookNext(words: seq<nat>, b: nat, c: nat, run: nat, count: nat)
    requires b < |words|
    requires Looked(words, b, if words[b] == 0 then 0 else 64, c, run, count)
    ensures Looked(words, b + 1, 0, c, run, count)
  {
    if words[b] == 0 {
      LookNextZero(words, b, c, run, count);
    } else {
      LookNextFull(words, b, c, run, count);
    }
  }

  lemma LookStart(words: seq<nat>, count: nat)
    ensures Looked(words, 0, 0, 0, 0, count)
  {
  }

  lemma LookedAll(words: seq<nat>, c: nat, run: nat, count: nat)
    requires Looked(words, |words|, 0, c, run, count)
    ensures count > 0 ==> NoRun(FramesOf(words), count) && NoRun(FramesOf(NonZero(words)), count)
    ensures count == 0 ==> NoneSeen(words, 64 * |words|)
  {
    assert words[..|words|] == words;
  }

  // ----- the ranges that are handed out

  ghost predicate Held(outstanding: map<nat, nat>, p: nat) {
    exists s :: s in outstanding && s <= p < s + outstanding[s]
  }

  /** The outstanding ranges are disjoint and inside the present frames, and the free frames are
      the other present ones. */
  ghost predicate Ledger(f: seq<bool>, present: nat, outstanding: map<nat, nat>) {
    && present <= |f|
    && (forall p :: 0 <= p < |f| ==> (f[p] <==> p < present && !Held(outstanding, p)))
    && (forall s :: s in outstanding ==> outstanding[s] > 0 && s + outstanding[s] <= present)
    && (forall s, t :: s in outstanding && t in outstanding && s != t ==>
          s + outstanding[s] <= t || t + outstanding[t] <= s)
  }

  lemma HeldAfterAdd(outstanding: map<nat, nat>, i: nat, n: nat, p: nat)
    requires i !in outstanding
    ensures Held(outstanding[i := n], p) <==> Held(outstanding, p) || i <= p < i + n
  {
    var after := outstanding[i := n];
    if Held(outstanding, p) {
      var s :| s in outstanding && s <= p < s + outstanding[s];
      assert s in after && after[s] == outstanding[s];
    }
    if i <= p < i + n {
      assert i in after && after[i] == n;
    }
  }

  lemma HeldAfterRemove(outstanding: map<nat, nat>, i: nat, p: nat)
    requires i in outstanding
    requires forall s :: s in outstanding && s != i ==>
               s + outstanding[s] <= i || i + outstanding[i] <= s
    ensures Held(outstanding - {i}, p) <==>
              Held(outstanding, p) && !(i <= p < i + outstanding[i])
  {
    var after := outstanding - {i};
    if Held(after, p) {
      var s :| s in after && s <= p < s + after[s];
      assert s in outstanding;
    }
    if Held(outstanding, p) && !(i <= p < i + outstanding[i]) {
      var s :| s in outstanding && s <= p < s + outstanding[s];
      assert s in after && after[s] == outstanding[s];
    }
  }

  lemma LedgerAfterAlloc(f: seq<bool>, present: nat, outstanding: map<nat, nat>, i: nat, n: nat)
    requires Ledger(f, present, outstanding) && RunAt(f, i, n) && n > 0
    ensures i !in outstanding
    ensures Ledger(Filled(f, i, i + n, false), present, outstanding[i := n])
  {
    assert f[i] && f[i + n - 1];
    forall s | s in outstanding
      ensures s + outstanding[s] <= i || i + n <= s
    {
      assert Held(outstanding, s);
      assert !f[s];
      assert s <= i < s + outstanding[s] ==> Held(outstanding, i);
    }
    forall p | 0 <= p < |f|
      ensures Held(outstanding[i := n], p) <==> Held(outstanding, p) || i <= p < i + n
    {
      HeldAfterAdd(outstanding, i, n, p);
    }
  }

  lemma LedgerAfterFree(f: seq<bool>, present: nat, outstanding: map<nat, nat>, i: nat)
    requires Ledger(f, present, outstanding) && i in outstanding
    ensures i + outstanding[i] <= present
    ensures Ledger(Filled(f, i, i + outstanding[i], true), present, outstanding - {i})
  {
    forall p | 0 <= p < |f|
      ensures Held(outstanding - {i}, p) <==>
                Held(outstanding, p) && !(i <= p < i + outstanding[i])
    {
      HeldAfterRemove(outstanding, i, p);
    }
  }

  /** Handing a free run out and taking it back restores the bitmap. */
  lemma FillThenRestore(f: seq<bool>, i: nat, n: nat)
    requires RunAt(f, i, n)
    ensures Filled(Filled(f, i, i + n, false), i, i + n, true) == f
  {
  }

  /** `paging_free_pages` as written stops at frame `count` instead of `start + count`: it gives a
      range back exactly when the range starts at frame 0. */
  lemma FreeAsWrittenRestoresIff(f: seq<bool>, i: nat, n: nat, present: nat)
    requires RunAt(f, i, n) && n > 0 && i + n <= present <= |f|
    ensures Filled(Filled(f, i, i + n, false), i, Min(n, present), true) == f <==> i == 0
  {
    var g := Filled(f, i, i + n, false);
    if i > 0 {
      assert !Filled(g, i, Min(n, present), true)[i + n - 1];
    }
  }

  datatype PageGrant = NoPages | Pages(addr: nat)

  class FrameAllocator {
    const pages: array<nat>
    var physBase: nat
    var presentCount: nat
    var hhdmStart: nat

    ghost var outstanding: map<nat, nat>

    ghost function Frames(): seq<bool>
      reads this, pages
    {
      FramesOf(pages[..])
    }

    /** The bitmap without the words that are 0. */
    ghost function Packed(): seq<bool>
      reads this, pages
    {
      FramesOf(NonZero(pages[..]))
    }

    ghost predicate Shape()
      reads this
    {
      pages.Length == BUCKET_COUNT && presentCount <= MAX_PAGES
    }

    /** The invariant of every run of the intended variant. */
    ghost predicate Valid()
      reads this, pages
    {
      Shape() && Ledger(Frames(), presentCount, outstanding)
    }

    /** The frame whose virtual address is `addr`. */
    function AddressOf(i: nat): nat
      reads this
    {
      physBase + PAGE_SIZE * i + hhdmStart
    }

    /** The static initial state. */
    constructor ()
      ensures Shape() && fresh(pages) && presentCount == 0
      ensures forall p :: 0 <= p < MAX_PAGES ==> !Frames()[p]
    {
      pages := new nat[BUCKET_COUNT](_ => 0);
      physBase, presentCount, hhdmStart := 0, 0, 0;
      outstanding := map[];
      new;
      forall p | 0 <= p < MAX_PAGES
        ensures !Frames()[p]
      {
        FrameIsBit(pages[..], p);
        BitsOfZero(p % 64);
      }
    }

    /** The end of `paging_init_frame_allocator`, for the region that was chosen; the bit is taken
        to be shifted as a 64-bit word. */
    method InitBitmap(bestBase: nat, bestLen: nat, hhdm: nat)
      requires Shape() && forall p :: 0 <= p < MAX_PAGES ==> !Frames()[p]
      modifies this, pages
      ensures Valid() && outstanding == map[]
      ensures physBase == bestBase && hhdmStart == hhdm
      ensures presentCount == Min(bestLen / PAGE_SIZE, MAX_PAGES)
      ensures forall p :: 0 <= p < MAX_PAGES ==> (Frames()[p] <==> p < presentCount)
    {
      var pageCount := bestLen / PAGE_SIZE;
      var present := if pageCount > MAX_PAGES then MAX_PAGES else pageCount;
      var i := 0;
      while i < present
        invariant 0 <= i <= present && Shape()
        invariant forall p :: 0 <= p < MAX_PAGES ==> (Frames()[p] <==> p < i)
      {
        ChangeFrame(i, true);
        i := i + 1;
      }
      ghost var f := Frames();
      physBase, hhdmStart, presentCount := bestBase, hhdm, present;
      outstanding := map[];
      assert Frames() == f;
    }

    /** The same with the shift of an `int` as written: it is defined for the bits below 31 only, so
        every shift is defined if and only if no more than 31 frames are present. */
    method InitBitmapAsWritten(bestBase: nat, bestLen: nat, hhdm: nat) returns (defined: bool)
      requires Shape() && forall p :: 0 <= p < MAX_PAGES ==> !Frames()[p]
      modifies this, pages
      ensures defined <==> Min(bestLen / PAGE_SIZE, MAX_PAGES) <= 31
      ensures defined ==> Valid() && outstanding == map[] && physBase == bestBase && hhdmStart == hhdm
                          && presentCount == Min(bestLen / PAGE_SIZE, MAX_PAGES)
                          && forall p :: 0 <= p < MAX_PAGES ==> (Frames()[p] <==> p < presentCount)
    {
      var pageCount := bestLen / PAGE_SIZE;
      var present := if pageCount > MAX_PAGES then MAX_PAGES else pageCount;
      var i := 0;
      while i < present
        invariant 0 <= i <= present && i <= 31 && Shape()
        invariant forall p :: 0 <= p < MAX_PAGES ==> (Frames()[p] <==> p < i)
      {
        if i % 64 >= 31 {
          return false;
        }
        ChangeFrame(i, true);
        i := i + 1;
      }
      ghost var f := Frames();
      physBase, hhdmStart, presentCount := bestBase, hhdm, present;
      outstanding := map[];
      assert Frames() == f;
      return true;
    }

    /** `paging_init_frame_allocator`. */
    method Init(entries: seq<Entry>, kernelStart: nat, kernelEnd: nat, hhdm: nat) returns (status: int)
      requires Shape() && forall p :: 0 <= p < MAX_PAGES ==> !Frames()[p]
      requires forall e :: e in entries ==> NoWrap(e)
      requires hhdm <= kernelStart && hhdm <= kernelEnd && kernelStart - hhdm + PAGE_SIZE <= U64
      modifies this, pages
      ensures status == 0 || status == -1
      ensures status == 0 ==> Valid() && outstanding == map[] && hhdmStart == hhdm
      ensures exists r :: LongestPiece(entries, r, AlignUp(kernelStart - hhdm), AlignDown(kernelEnd - hhdm))
                          && (status == -1 <==> r.NoRegion?)
                          && (r.Region? ==> physBase == r.base
                                            && presentCount == Min(r.length / PAGE_SIZE, MAX_PAGES))
      ensures status == 0 ==> physBase % PAGE_SIZE == 0 && presentCount >= 1
    {
      var best := ChooseRegion(entries, kernelStart - hhdm, kernelEnd - hhdm);
      if best.NoRegion? {
        return -1;
      }
      ghost var kstart, kend := AlignUp(kernelStart - hhdm), AlignDown(kernelEnd - hhdm);
      ghost var k: nat :| k < |entries| && FirstIn(entries, k, best, kstart, kend);
      assert Piece(entries[k], best.base, best.base + best.length);
      InitBitmap(best.base, best.length, hhdm);
      return 0;
    }

    /** Writes one bit of the bitmap. */
    method ChangeFrame(p: nat, state: bool)
      requires Shape() && p < MAX_PAGES
      modifies pages
      ensures Frames() == old(Frames())[p := state]
    {
      var b, i := p / 64, p % 64;
      ChangeBit(pages[..], p, state);
      var w := if state then SetBit(pages[b], i) else ClearBit(pages[b], i);
      pages[b] := w;
      assert pages[..] == old(pages[..])[b := w];
    }

    /** The marking loop of `paging_alloc_pages`. */
    method MarkUsed(candidate: nat, count: nat, ghost i: nat)
      requires Shape() && candidate == physBase + PAGE_SIZE * i && i + count <= MAX_PAGES
      modifies pages
      ensures Frames() == Filled(old(Frames()), i, i + count, false)
    {
      var curr := candidate;
      var k := 0;
      while k < count
        invariant 0 <= k <= count && curr == physBase + PAGE_SIZE * (i + k)
        invariant Frames() == Filled(old(Frames()), i, i + k, false)
      {
        var pageIdx := (curr - physBase) / PAGE_SIZE;
        ChangeFrame(pageIdx, false);
        curr := curr + PAGE_SIZE;
        k := k + 1;
      }
    }

    /** The scan of `paging_alloc_pages` as written. */
    method ScanAsWritten(count: nat) returns (found: bool, candidate: nat, ghost c: nat)
      requires Shape()
      ensures candidate == physBase + PAGE_SIZE * c && c + (if found then count else 0) <= MAX_PAGES
      ensures count > 0 ==> (found <==> !NoRun(Packed(), count))
      ensures count > 0 && !found ==> NoRun(Frames(), count)
      ensures count > 0 && found ==> FoundAsWritten(Frames(), c, count) && GrantStart(pages[..], c, count)
      ensures count == 0 ==> if found then SeenInUse(pages[..], c) && NoneSeen(pages[..], c)
                             else NoneSeen(pages[..], MAX_PAGES)
    {
      var bucketBase := physBase;
      var run := 0;
      candidate, c, found := bucketBase, 0, false;
      LookStart(pages[..], count);
      var b := 0;
      while b < BUCKET_COUNT
        invariant 0 <= b <= BUCKET_COUNT && bucketBase == physBase + PAGE_SIZE * (64 * b)
        invariant candidate == physBase + PAGE_SIZE * c && c <= 64 * b
        invariant Looked(pages[..], b, 0, c, run, count)
      {
        found, run, candidate, c := ScanWordAsWritten(b, bucketBase, run, candidate, c, count);
        if found {
          return;
        }
        bucketBase := bucketBase + 64 * PAGE_SIZE;
        b := b + 1;
      }
      LookedAll(pages[..], c, run, count);
    }

    /** One word of the scan as written: a word that is 0 is passed over. */
    method ScanWordAsWritten(b: nat, bucketBase: nat, run0: nat, candidate0: nat, ghost c0: nat, count: nat)
        returns (found: bool, run: nat, candidate: nat, ghost c: nat)
      requires Shape() && b < BUCKET_COUNT && bucketBase == physBase + PAGE_SIZE * (64 * b)
      requires candidate0 == physBase + PAGE_SIZE * c0 && c0 <= 64 * b
      requires Looked(pages[..], b, 0, c0, run0, count)
      ensures candidate == physBase + PAGE_SIZE * c && c <= 64 * b + 64
      ensures found ==> c + count <= MAX_PAGES && Found(pages[..], c, count)
      ensures !found ==> Looked(pages[..], b + 1, 0, c, run, count)
    {
      found, run, candidate, c := false, run0, candidate0, c0;
      if pages[b] != 0 {
        found, run, candidate, c := ScanBucketAsWritten(b, bucketBase, run, candidate, c, count);
      }
      if !found {
        LookNext(pages[..], b, c, run, count);
      }
    }

    /** The inner loop of the scan as written. */
    method ScanBucketAsWritten(b: nat, bucketBase: nat, run0: nat, candidate0: nat, ghost c0: nat,
                               count: nat)
        returns (found: bool, run: nat, candidate: nat, ghost c: nat)
      requires Shape() && b < BUCKET_COUNT && bucketBase == physBase + PAGE_SIZE * (64 * b)
      requires candidate0 == physBase + PAGE_SIZE * c0 && c0 <= 64 * b
      requires pages[b] != 0 && Looked(pages[..], b, 0, c0, run0, count)
      ensures candidate == physBase + PAGE_SIZE * c && c <= 64 * b + 64
      ensures found ==> c + count <= MAX_PAGES && Found(pages[..], c, count)
      ensures !found ==> Looked(pages[..], b, 64, c, run, count)
    {
      run, candidate, c, found := run0, candidate0, c0, false;
      var i := 0;
      while i < 64
        invariant 0 <= i <= 64
        invariant candidate == physBase + PAGE_SIZE * c && c <= 64 * b + i
        invariant Looked(pages[..], b, i, c, run, count)
      {
        run, candidate, c := LookAsWritten(b, i, bucketBase, run, candidate, c, count);
        if run == count {
          return true, run, candidate, c;
        }
        i := i + 1;
      }
    }

    /** One frame of the scan as written: a used frame makes itself the candidate. */
    method LookAsWritten(b: nat, i: nat, bucketBase: nat, run0: nat, candidate0: nat, ghost c0: nat, count: nat)
        returns (run: nat, candidate: nat, ghost c: nat)
      requires Shape() && b < BUCKET_COUNT && i < 64 && bucketBase == physBase + PAGE_SIZE * (64 * b)
      requires candidate0 == physBase + PAGE_SIZE * c0 && c0 <= 64 * b + i
      requires pages[b] != 0 && Looked(pages[..], b, i, c0, run0, count)
      ensures candidate == physBase + PAGE_SIZE * c && c <= 64 * b + i
      ensures run == if TestBit(pages[b], i) then run0 + 1 else 0
      ensures run == count ==> c + count <= MAX_PAGES && Found(pages[..], c, count)
      ensures run != count ==> Looked(pages[..], b, i + 1, c, run, count)
    {
      Look(pages[..], b, i, c0, run0, count);
      if TestBit(pages[b], i) {
        run, candidate, c := run0 + 1, candidate0, c0;
      } else {
        run, candidate, c := 0, bucketBase + i * PAGE_SIZE, 64 * b + i;
      }
    }

    lemma ScanStart(f: seq<bool>, count: nat)
      ensures count > 0 ==> Scanned(f, 0, 0, 0, count)
    {
    }

    /** `paging_alloc_pages` as written.  It finds something if and only if the words that are not 0,
        put side by side, have `count` consecutive free frames; so it does whenever the bitmap has.
        What it hands out lies in the bitmap and starts at frame 0 or at a frame in use; it is free
        before the call if and only if the first `count` frames are free. */
    method AllocPagesAsWritten(count: nat) returns (r: PageGrant, ghost c: nat)
      requires Shape()
      modifies pages
      ensures count > 0 ==> (r.NoPages? <==> NoRun(old(Packed()), count))
      ensures count > 0 && r.NoPages? ==> NoRun(old(Frames()), count)
      ensures r.NoPages? ==> Frames() == old(Frames()) && pages[..] == old(pages[..])
      ensures r.Pages? ==> r.addr == AddressOf(c) && c + count <= MAX_PAGES
                           && Frames() == Filled(old(Frames()), c, c + count, false)
      ensures r.Pages? && count > 0 ==>
                FoundAsWritten(old(Frames()), c, count) && GrantStart(old(pages[..]), c, count)
      ensures count == 0 ==> if r.Pages? then SeenInUse(old(pages[..]), c) && NoneSeen(old(pages[..]), c)
                             else NoneSeen(old(pages[..]), MAX_PAGES)
    {
      var found, candidate;
      found, candidate, c := ScanAsWritten(count);
      if !found {
        return NoPages, c;
      }
      MarkUsed(candidate, count, c);
      r := Pages(candidate + hhdmStart);
    }

    /** Two requests for one page each, with nothing freed between them, get the same page. */
    method TwoSinglePages() returns (first: PageGrant, second: PageGrant)
      requires Shape() && presentCount >= 2
      requires forall p :: 0 <= p < MAX_PAGES ==> (Frames()[p] <==> p < presentCount)
      modifies pages
      ensures first == second == Pages(AddressOf(0))
    {
      ghost var c, d;
      assert RunAt(Frames(), 0, 1);
      first, c := AllocPagesAsWritten(1);
      assert RunAt(Frames(), 1, 1);
      second, d := AllocPagesAsWritten(1);
    }

    /** The scan of `paging_alloc_pages` as intended: a used frame makes the next one the candidate,
        and a word of used frames ends the run. */
    method Scan(count: nat) returns (found: bool, candidate: nat, ghost c: nat)
      requires Shape()
      ensures candidate == physBase + PAGE_SIZE * c && c + (if found then count else 0) <= MAX_PAGES
      ensures count > 0 && !found ==> NoRunBefore(Frames(), MAX_PAGES, count)
      ensures count > 0 && found ==> FirstFit(Frames(), c, count)
    {
      ghost var f := Frames();
      var bucketBase := physBase;
      var run := 0;
      candidate, c, found := bucketBase, 0, false;
      ScanStart(f, count);
      var b := 0;
      while b < BUCKET_COUNT
        invariant 0 <= b <= BUCKET_COUNT && bucketBase == physBase + PAGE_SIZE * (64 * b)
        invariant candidate == physBase + PAGE_SIZE * c && c <= 64 * b
        invariant count > 0 ==> Scanned(f, 64 * b, c, run, count)
      {
        if pages[b] != 0 {
          found, run, candidate, c := ScanBucket(b, bucketBase, run, candidate, c, count);
          if found {
            return;
          }
        } else {
          if count > 0 {
            ZeroWord(pages[..], b);
            ScanUsed(f, 64 * b, 64 * b + 64, c, run, count);
          }
          run := 0;
          candidate := bucketBase + 64 * PAGE_SIZE;
          c := 64 * b + 64;
        }
        bucketBase := bucketBase + 64 * PAGE_SIZE;
        b := b + 1;
      }
    }

    /** The inner loop of the scan as intended. */
    method ScanBucket(b: nat, bucketBase: nat, run0: nat, candidate0: nat, ghost c0: nat, count: nat)
        returns (found: bool, run: nat, candidate: nat, ghost c: nat)
      requires Shape() && b < BUCKET_COUNT && bucketBase == physBase + PAGE_SIZE * (64 * b)
      requires candidate0 == physBase + PAGE_SIZE * c0 && c0 <= 64 * b
      requires count > 0 ==> Scanned(Frames(), 64 * b, c0, run0, count)
      ensures candidate == physBase + PAGE_SIZE * c && c <= 64 * b + 64
      ensures found ==> c + count <= MAX_PAGES && (count > 0 ==> FirstFit(Frames(), c, count))
      ensures !found && count > 0 ==> Scanned(Frames(), 64 * b + 64, c, run, count)
    {
      ghost var f := Frames();
      run, candidate, c := run0, candidate0, c0;
      var i := 0;
      while i < 64
        invariant 0 <= i <= 64
        invariant candidate == physBase + PAGE_SIZE * c && c <= 64 * b + i
        invariant count > 0 ==> Scanned(f, 64 * b + i, c, run, count)
      {
        FrameOfBit(pages[..], b, i);
        if TestBit(pages[b], i) {
          if count > 0 {
            ScanFree(f, 64 * b + i, c, run, count);
          }
          run := run + 1;
        } else {
          if count > 0 {
            ScanUsed(f, 64 * b + i, 64 * b + i + 1, c, run, count);
          }
          run := 0;
          candidate := bucketBase + (i + 1) * PAGE_SIZE;
          c := 64 * b + i + 1;
        }
        if run == count {
          return true, run, candidate, c;
        }
        i := i + 1;
      }
      found := false;
    }

    /** `paging_alloc_pages` as intended: the lowest-address first fit, or nothing if there is no
        run of `count` free frames. */
    method AllocPages(count: nat) returns (r: PageGrant, ghost c: nat)
      requires Valid()
      modifies this`outstanding, pages
      ensures Valid()
      ensures count > 0 ==>
                (r.NoPages? <==> forall i: nat {:trigger RunAt(old(Frames()), i, count)} ::
                                   !RunAt(old(Frames()), i, count))
      ensures count == 0 || r.NoPages? ==>
                Frames() == old(Frames()) && outstanding == old(outstanding)
      ensures count > 0 && r.Pages? ==>
                && r.addr == AddressOf(c) && FirstFit(old(Frames()), c, count)
                && Frames() == Filled(old(Frames()), c, c + count, false)
                && c !in old(outstanding) && outstanding == old(outstanding)[c := count]
    {
      var found, candidate;
      found, candidate, c := Scan(count);
      if !found {
        return NoPages, c;
      }
      if count > 0 {
        LedgerAfterAlloc(Frames(), presentCount, outstanding, c, count);
        outstanding := outstanding[c := count];
      }
      MarkUsed(candidate, count, c);
      r := Pages(candidate + hhdmStart);
    }

    /** The loop of `paging_free_pages`, up to the bound `limit`. */
    method FreeLoop(start: nat, limit: nat)
      requires Shape()
      modifies pages
      ensures Frames() == Filled(old(Frames()), start, Min(limit, presentCount), true)
    {
      var off := start;
      while off < limit && off < presentCount
        invariant start <= off && (off == start || off <= Min(limit, presentCount))
        invariant Frames() == Filled(old(Frames()), start, off, true)
        decreases presentCount - off
      {
        ChangeFrame(off, true);
        off := off + 1;
      }
    }

    /** The checks at the start of `paging_free_pages`: the first frame to free, if the address is
        that of a frame. */
    function FrameAt(addr: nat): (i: int)
      requires addr < U64 && hhdmStart < U64
      reads this
    {
      var phys := (addr + U64 - hhdmStart) % U64;
      if phys % PAGE_SIZE != 0 || phys < physBase then -1 else (phys - physBase) / PAGE_SIZE
    }

    lemma FrameAtAddress(i: nat)
      requires physBase % PAGE_SIZE == 0 && hhdmStart < U64 && AddressOf(i) < U64
      ensures FrameAt(AddressOf(i)) == i
    {
      var phys := physBase + PAGE_SIZE * i;
      assert (phys + U64) % U64 == phys;
      DivMod(physBase, PAGE_SIZE);
      assert phys == (physBase / PAGE_SIZE + i) * PAGE_SIZE + 0;
      DivModUnique(phys, PAGE_SIZE, physBase / PAGE_SIZE + i, 0);
      assert phys - physBase == i * PAGE_SIZE + 0;
      DivModUnique(phys - physBase, PAGE_SIZE, i, 0);
    }

    /** `paging_free_pages` as written. */
    method FreePagesAsWritten(addr: nat, count: nat)
      requires Shape() && addr < U64 && hhdmStart < U64
      modifies pages
      ensures FrameAt(addr) < 0 ==> Frames() == old(Frames())
      ensures FrameAt(addr) >= 0 ==>
                Frames() == Filled(old(Frames()), FrameAt(addr), Min(count, presentCount), true)
    {
      var start := FrameAt(addr);
      if start < 0 {
        return;
      }
      FreeLoop(start, count);
    }

    /** `paging_free_pages` as intended, for a range that is outstanding. */
    method FreePages(addr: nat, count: nat, ghost i: nat)
      requires Valid() && i in outstanding && outstanding[i] == count && addr == AddressOf(i)
      requires physBase % PAGE_SIZE == 0 && addr < U64 && hhdmStart < U64
      modifies this`outstanding, pages
      ensures Valid() && outstanding == old(outstanding) - {i}
      ensures Frames() == Filled(old(Frames()), i, i + count, true)
    {
      FrameAtAddress(i);
      var start := FrameAt(addr);
      if start < 0 {
        return;
      }
      LedgerAfterFree(Frames(), presentCount, outstanding, i);
      outstanding := outstanding - {i};
      FreeLoop(start, start + count);
    }

    /** Freeing the range that was allocated last restores the bitmap. */
    method AllocThenFree(count: nat)
      requires Valid() && physBase % PAGE_SIZE == 0
      requires hhdmStart < U64 && AddressOf(MAX_PAGES) < U64
      modifies this`outstanding, pages
      ensures Valid() && Frames() == old(Frames()) && outstanding == old(outstanding)
    {
      ghost var f, held := Frames(), outstanding;
      var r, c := AllocPages(count);
      if count > 0 && r.Pages? {
        FreePages(r.addr, count, c);
        FillThenRestore(f, c, count);
        assert outstanding == held;
      }
    }
  }
}
