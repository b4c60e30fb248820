/** The choice of the boot memory region in `paging_init_frame_allocator` of src/mem/paging.c. */
module Regions {
  import opened BitMath

  const PAGE_SIZE: nat := 0x20_0000

  /** A memory map entry; `usable` says that its type is LIMINE_MEMMAP_USABLE. */
  datatype Entry = Entry(base: nat, length: nat, usable: bool)

  datatype Region = NoRegion | Region(base: nat, length: nat)

  function AlignDown(x: nat): nat {
    x - x % PAGE_SIZE
  }

  function AlignUp(x: nat): nat {
    AlignDown((x + PAGE_SIZE - 1) % U64)
  }

  /** The addresses of the entry do not wrap around, even when rounded up. */
  predicate NoWrap(e: Entry) {
    e.base + PAGE_SIZE <= U64 && e.base + e.length < U64
  }

  /** A page-aligned piece of a usable entry. */
  ghost predicate Piece(e: Entry, x: nat, y: nat) {
    && e.usable && e.base <= x < y <= e.base + e.length
    && x % PAGE_SIZE == 0 && y % PAGE_SIZE == 0
  }

  /** [x, y) lies on one side of the excluded interval [kstart, kend). */
  ghost predicate OneSided(x: nat, y: nat, kstart: nat, kend: nat) {
    y <= kstart || kend <= x
  }

  ghost predicate Admissible(e: Entry, x: nat, y: nat, kstart: nat, kend: nat) {
    Piece(e, x, y) && OneSided(x, y, kstart, kend)
  }

  /** The body of the loop over the entries: the better side of one entry, if it is longer than a
      page. */
  function BestOf(e: Entry, kstart: nat, kend: nat): Region {
    if !e.usable then NoRegion else
    var regionStart := AlignUp(e.base);
    var regionEnd := AlignDown((e.base + e.length) % U64);
    if regionEnd <= regionStart then NoRegion else
    var overlaps := regionStart < kend && regionEnd > kstart;
    var sizeBefore := if kstart > regionStart then kstart - regionStart else 0;
    var sizeAfter := if regionEnd > kend then regionEnd - kend else 0;
    var usableStart := if overlaps && sizeBefore < sizeAfter then kend else regionStart;
    var usableEnd := if overlaps && sizeBefore >= sizeAfter then kstart else regionEnd;
    if usableEnd <= usableStart + PAGE_SIZE then NoRegion
    else Region(usableStart, usableEnd - usableStart)
  }

  lemma Multiple(x: nat, q: nat)
    requires x == q * PAGE_SIZE
    ensures x % PAGE_SIZE == 0
  {
    DivModUnique(x, PAGE_SIZE, q, 0);
  }

  lemma AlignDownFacts(x: nat)
    ensures AlignDown(x) % PAGE_SIZE == 0 && AlignDown(x) <= x < AlignDown(x) + PAGE_SIZE
    ensures forall y: nat {:trigger y % PAGE_SIZE} :: y % PAGE_SIZE == 0 && y <= x ==> y <= AlignDown(x)
  {
    Multiple(AlignDown(x), x / PAGE_SIZE);
  }

  lemma AlignUpFacts(x: nat)
    requires x + PAGE_SIZE <= U64
    ensures AlignUp(x) % PAGE_SIZE == 0 && x <= AlignUp(x) < x + PAGE_SIZE
    ensures forall y: nat {:trigger y % PAGE_SIZE} :: y % PAGE_SIZE == 0 && x <= y ==> AlignUp(x) <= y
  {
    NoWrapAround(x + PAGE_SIZE - 1, U64);
    AlignDownFacts(x + PAGE_SIZE - 1);
  }

  /** For every entry the loop body finds the lowest of the longest admissible pieces, or finds nothing
      because no admissible piece is longer than a page. */
  lemma BestIsLongest(e: Entry, kstart: nat, kend: nat)
    requires NoWrap(e) && kstart % PAGE_SIZE == 0 && kend % PAGE_SIZE == 0
    ensures var r := BestOf(e, kstart, kend);
            && (r.Region? ==> r.length > PAGE_SIZE
                              && Admissible(e, r.base, r.base + r.length, kstart, kend))
            && forall x: nat, y: nat {:trigger Admissible(e, x, y, kstart, kend)} ::
                 Admissible(e, x, y, kstart, kend) ==>
                 && y - x <= (if r.Region? then r.length else PAGE_SIZE)
                 && (r.Region? && y - x == r.length ==> r.base <= x)
  {
    AlignUpFacts(e.base);
    NoWrapAround(e.base + e.length, U64);
    AlignDownFacts(e.base + e.length);
    var r := BestOf(e, kstart, kend);
    forall x: nat, y: nat | Admissible(e, x, y, kstart, kend)
      ensures y - x <= (if r.Region? then r.length else PAGE_SIZE)
      ensures r.Region? && y - x == r.length ==> r.base <= x
    {
      assert AlignUp(e.base) <= x && y <= AlignDown(e.base + e.length);
    }
  }

  /** No admissible piece of any entry is longer than `bound`. */
  ghost predicate NoneLonger(es: seq<Entry>, bound: nat, kstart: nat, kend: nat) {
    forall e, x: nat, y: nat {:trigger e in es, Admissible(e, x, y, kstart, kend)} ::
      e in es && Admissible(e, x, y, kstart, kend) ==> y - x <= bound
  }

  /** r is a piece of the i-th entry, which has no lower one of that length, and the entries before it
      have only shorter ones. */
  ghost predicate FirstIn(es: seq<Entry>, i: nat, r: Region, kstart: nat, kend: nat)
    requires r.Region? && i < |es|
  {
    && Admissible(es[i], r.base, r.base + r.length, kstart, kend)
    && (forall x: nat, y: nat {:trigger Admissible(es[i], x, y, kstart, kend)} ::
          Admissible(es[i], x, y, kstart, kend) && y - x == r.length ==> r.base <= x)
    && (forall j, x: nat, y: nat {:trigger Admissible(es[j], x, y, kstart, kend)} ::
          0 <= j < i && Admissible(es[j], x, y, kstart, kend) ==> y - x < r.length)
  }

  ghost predicate FromEntry(es: seq<Entry>, r: Region, kstart: nat, kend: nat)
    requires r.Region?
  {
    exists i: nat {:trigger es[i]} :: i < |es| && FirstIn(es, i, r, kstart, kend)
  }

  /** r is the first of the longest admissible pieces of all entries, and longer than a page; or there
      is no admissible piece that is longer than a page. */
  ghost predicate LongestPiece(es: seq<Entry>, r: Region, kstart: nat, kend: nat) {
    if r.NoRegion? then NoneLonger(es, PAGE_SIZE, kstart, kend)
    else r.length > PAGE_SIZE && FromEntry(es, r, kstart, kend)
         && NoneLonger(es, r.length, kstart, kend)
  }

  /** Such a piece is the only one. */
  lemma LongestPieceIsUnique(es: seq<Entry>, r: Region, s: Region, kstart: nat, kend: nat)
    requires LongestPiece(es, r, kstart, kend) && LongestPiece(es, s, kstart, kend)
    ensures r == s
  {
    if r.Region? && s.Region? {
      var i: nat :| i < |es| && FirstIn(es, i, r, kstart, kend);
      var j: nat :| j < |es| && FirstIn(es, j, s, kstart, kend);
      assert es[i] in es && es[j] in es;
      assert Admissible(es[i], r.base, r.base + r.length, kstart, kend);
      assert Admissible(es[j], s.base, s.base + s.length, kstart, kend);
    } else if r.Region? {
      LongerThanAPage(es, r, kstart, kend);
    } else if s.Region? {
      LongerThanAPage(es, s, kstart, kend);
    }
  }

  lemma LongerThanAPage(es: seq<Entry>, r: Region, kstart: nat, kend: nat)
    requires r.Region? && LongestPiece(es, r, kstart, kend)
    ensures !NoneLonger(es, PAGE_SIZE, kstart, kend)
  {
    var i: nat :| i < |es| && FirstIn(es, i, r, kstart, kend);
    assert es[i] in es && Admissible(es[i], r.base, r.base + r.length, kstart, kend);
  }

  lemma StaysFirst(es: seq<Entry>, e: Entry, r: Region, kstart: nat, kend: nat)
    requires r.Region? && FromEntry(es, r, kstart, kend)
    ensures FromEntry(es + [e], r, kstart, kend)
  {
    var i: nat :| i < |es| && FirstIn(es, i, r, kstart, kend);
    assert (es + [e])[i] == es[i];
    assert FirstIn(es + [e], i, r, kstart, kend);
  }

  lemma BecomesFirst(es: seq<Entry>, e: Entry, r: Region, bound: nat, kstart: nat, kend: nat)
    requires r.Region? && r == BestOf(e, kstart, kend) && r.length > bound
    requires NoneLonger(es, bound, kstart, kend)
    requires NoWrap(e) && kstart % PAGE_SIZE == 0 && kend % PAGE_SIZE == 0
    ensures FromEntry(es + [e], r, kstart, kend)
  {
    BestIsLongest(e, kstart, kend);
    var es', i := es + [e], |es|;
    assert es'[i] == e;
    forall j, x: nat, y: nat | 0 <= j < i && Admissible(es'[j], x, y, kstart, kend)
      ensures y - x < r.length
    {
      assert es'[j] in es;
    }
    assert FirstIn(es', i, r, kstart, kend);
  }

  lemma OneMoreEntry(es: seq<Entry>, e: Entry, best: Region, kstart: nat, kend: nat)
    requires LongestPiece(es, best, kstart, kend)
    requires NoWrap(e) && kstart % PAGE_SIZE == 0 && kend % PAGE_SIZE == 0
    ensures var found := BestOf(e, kstart, kend);
            LongestPiece(es + [e],
                         if found.Region? && (best.NoRegion? || found.length > best.length) then found else best,
                         kstart, kend)
  {
    BestIsLongest(e, kstart, kend);
    var found := BestOf(e, kstart, kend);
    var r := if found.Region? && (best.NoRegion? || found.length > best.length) then found else best;
    if r.Region? && r == best {
      StaysFirst(es, e, r, kstart, kend);
    } else if r.Region? {
      BecomesFirst(es, e, r, if best.Region? then best.length else PAGE_SIZE, kstart, kend);
    }
    forall d, x: nat, y: nat | d in es + [e] && Admissible(d, x, y, kstart, kend)
      ensures y - x <= (if r.Region? then r.length else PAGE_SIZE)
    {
      assert d in es || d == e;
    }
  }

  /** A region that is chosen is inside one usable entry, page-aligned, on one side of the excluded
      interval, longer than a page, and a longest such; nothing is chosen exactly when there is no
      such region. */
  lemma ChoiceIsExact(es: seq<Entry>, r: Region, kstart: nat, kend: nat)
    requires LongestPiece(es, r, kstart, kend)
    ensures r.NoRegion? <==>
              forall e, x: nat, y: nat {:trigger e in es, Admissible(e, x, y, kstart, kend)} ::
                e in es && Admissible(e, x, y, kstart, kend) ==> y - x <= PAGE_SIZE
  {
    if r.Region? {
      LongerThanAPage(es, r, kstart, kend);
    }
  }

  /** The loop over the memory map. */
  method ChooseRegion(entries: seq<Entry>, kernelStart: nat, kernelEnd: nat) returns (best: Region)
    requires forall e :: e in entries ==> NoWrap(e)
    requires kernelStart + PAGE_SIZE <= U64
    ensures LongestPiece(entries, best, AlignUp(kernelStart), AlignDown(kernelEnd))
  {
    AlignUpFacts(kernelStart);
    AlignDownFacts(kernelEnd);
    best := NoRegion;
    var i := 0;
    while i < |entries|
      invariant 0 <= i <= |entries|
      invariant LongestPiece(entries[..i], best, AlignUp(kernelStart), AlignDown(kernelEnd))
    {
      var kstart, kend := AlignUp(kernelStart), AlignDown(kernelEnd);
      OneMoreEntry(entries[..i], entries[i], best, kstart, kend);
      assert entries[..i + 1] == entries[..i] + [entries[i]];
      var found := BestOf(entries[i], kstart, kend);
      if found.Region? && (best.NoRegion? || found.length > best.length) {
        best := found;
      }
      i := i + 1;
    }
    assert entries[..i] == entries;
  }

  ghost predicate Avoids(r: Region, kernelStart: nat, kernelEnd: nat) {
    r.Region? ==> r.base + r.length <= kernelStart || kernelEnd <= r.base
  }

  /** The excluded interval is the kernel rounded inwards, so the first and the last partial page of
      the kernel are not excluded: every entry's choice avoids the kernel exactly when the kernel
      starts and ends at page boundaries. */
  lemma KernelIsAvoidedIff(kernelStart: nat, kernelEnd: nat)
    requires PAGE_SIZE <= kernelStart < kernelEnd && kernelEnd + 3 * PAGE_SIZE < U64
    ensures (forall e {:trigger NoWrap(e)} :: NoWrap(e) ==>
               Avoids(BestOf(e, AlignUp(kernelStart), AlignDown(kernelEnd)), kernelStart, kernelEnd))
            <==> kernelStart % PAGE_SIZE == 0 && kernelEnd % PAGE_SIZE == 0
  {
    AlignUpFacts(kernelStart);
    AlignDownFacts(kernelEnd);
    var kstart, kend := AlignUp(kernelStart), AlignDown(kernelEnd);
    forall e {:trigger NoWrap(e)} | NoWrap(e) && kernelStart % PAGE_SIZE == 0 && kernelEnd % PAGE_SIZE == 0
      ensures Avoids(BestOf(e, kstart, kend), kernelStart, kernelEnd)
    {
      BestIsLongest(e, kstart, kend);
    }
    if kernelStart % PAGE_SIZE != 0 {
      TwoPagesAreTaken(kstart - 2 * PAGE_SIZE, kstart, kend);
      assert NoWrap(Entry(kstart - 2 * PAGE_SIZE, 2 * PAGE_SIZE, true));
    }
    if kernelEnd % PAGE_SIZE != 0 {
      TwoPagesAreTaken(kend, kstart, kend);
      assert NoWrap(Entry(kend, 2 * PAGE_SIZE, true));
    }
  }

  /** An entry of two pages on one side of the excluded interval is taken whole. */
  lemma TwoPagesAreTaken(base: nat, kstart: nat, kend: nat)
    requires base % PAGE_SIZE == 0 && base + 3 * PAGE_SIZE < U64
    requires OneSided(base, base + 2 * PAGE_SIZE, kstart, kend)
    ensures BestOf(Entry(base, 2 * PAGE_SIZE, true), kstart, kend) == Region(base, 2 * PAGE_SIZE)
  {
    AlignUpFacts(base);
    AlignDownFacts(base + 2 * PAGE_SIZE);
    var q := base / PAGE_SIZE;
    DivMod(base, PAGE_SIZE);
    Multiple(base + 2 * PAGE_SIZE, q + 2);
  }
}
