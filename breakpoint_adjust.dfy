/**
 `adjust_positions` of `adjust_to_exon_boundary.py`: move each end of a
 breakpoint to the nearest annotated site of its role, within the tolerance
 `dist + 1`, and report the adjusted positions and the signed shifts in
 `pos1`/`pos2` order.  `dist` is the `--dist` option, made a parameter.
 */
module BreakpointAdjust {
  import opened Wrappers
  import opened JunctionSites
  import opened Strands

  /** An output column: an integer, or the configured placeholder text. */
  datatype Cell = Num(n: int) | Na(text: string)

  datatype Adjustment = Adjustment(adjustPos1: Cell, adjustPos2: Cell, pos1Shift: Cell, pos2Shift: Cell)

  /** One end: (adjusted position, shift) for a lookup result and its query position. */
  function AdjustEnd(site: Option<Site>, query: int, naValue: string): (r: (Cell, Cell))
    ensures r.0.Num? <==> site.Some?
    ensures r.0.Num? ==> r.0.n == site.value.pos && r.1 == Num(r.0.n - query)
    ensures r.0.Na? ==> r.0 == Na(naValue) && r.1 == Na(naValue)
  {
    if site.Some? then (Num(site.value.pos), Num(site.value.pos - query))
    else (Na(naValue), Na(naValue))
  }

  /**
   `get_nearest_donor_site` / `get_nearest_acceptor_site` with tolerance `dist + 1`:
   a found site is on the chromosome and strand and at most `dist + 1` away (when
   that is non-zero); with `dist + 1 == 0` any matching row is found.
   */
  function Lookup(anno: Annotation, t: SiteType, chrom: string, query: int, strand: string, dist: int): (r: Option<Site>)
    ensures r.Some? ==> r.value in anno.Table(t) && Matches(r.value, chrom, Some(strand))
    ensures r.Some? && dist + 1 != 0 ==> Distance(r.value, query) <= dist + 1
    ensures dist + 1 == 0 ==>
              (r.Some? <==> exists i | 0 <= i < |anno.Table(t)| :: Matches(anno.Table(t)[i], chrom, Some(strand)))
  {
    NearestJuncSite(anno, t, chrom, query, Some(strand), Some(dist + 1))
  }

  /** There is an annotated site of type `t` on the breakpoint's chromosome and strand at `p`. */
  ghost predicate IsAnnotatedAt(anno: Annotation, t: SiteType, chrom: string, strand: string, p: int) {
    exists s | s in anno.Table(t) :: Matches(s, chrom, Some(strand)) && s.pos == p
  }

  /**
   One end of `adjust_positions`: the gated lookup of site type `t` at `query`,
   reported as (adjusted position, shift).  An adjusted end lies on an annotated
   site, its shift is measured from `query` and bounded by a non-zero `dist + 1`.
   */
  function AdjustSlot(anno: Annotation, t: SiteType, chrom: string, query: int, strand: string,
                      dist: int, naValue: string): (r: (Cell, Cell))
    ensures r.0.Num? ==> r.1 == Num(r.0.n - query) && IsAnnotatedAt(anno, t, chrom, strand, r.0.n)
    ensures r.0.Na? ==> r.0 == r.1 == Na(naValue)
    ensures dist + 1 != 0 && r.1.Num? ==> -(dist + 1) <= r.1.n <= dist + 1
  {
    AdjustEnd(Lookup(anno, t, chrom, query, strand, dist), query, naValue)
  }

  /**
   `adjust_positions(chrm, pos1, pos2, strand, anno_db, na_value)`.  Slot 1 takes
   the acceptor on `+` and the donor on `-` (slot 2 the other role); each slot's
   lookup is made at that slot's own raw position, its shift is measured from
   it, and a miss fills both of its columns with the placeholder.
   */
  function AdjustPositions(anno: Annotation, chrom: string, pos1: int, pos2: int, strand: string,
                           dist: int, naValue: string): (r: Adjustment)
    requires IsValidStrand(strand)
    ensures var (t1, t2) := FromRoles(strand, Donor, Acceptor);
            && (r.adjustPos1, r.pos1Shift) == AdjustSlot(anno, t1, chrom, pos1, strand, dist, naValue)
            && (r.adjustPos2, r.pos2Shift) == AdjustSlot(anno, t2, chrom, pos2, strand, dist, naValue)
    ensures r.adjustPos1.Num? ==> r.pos1Shift == Num(r.adjustPos1.n - pos1)
    ensures r.adjustPos2.Num? ==> r.pos2Shift == Num(r.adjustPos2.n - pos2)
    ensures r.adjustPos1.Na? ==> r.adjustPos1 == r.pos1Shift == Na(naValue)
    ensures r.adjustPos2.Na? ==> r.adjustPos2 == r.pos2Shift == Na(naValue)
    ensures r.adjustPos1.Num? ==>
              IsAnnotatedAt(anno, FromRoles(strand, Donor, Acceptor).0, chrom, strand, r.adjustPos1.n)
    ensures r.adjustPos2.Num? ==>
              IsAnnotatedAt(anno, FromRoles(strand, Donor, Acceptor).1, chrom, strand, r.adjustPos2.n)
    ensures dist + 1 != 0 && r.pos1Shift.Num? ==> -(dist + 1) <= r.pos1Shift.n <= dist + 1
    ensures dist + 1 != 0 && r.pos2Shift.Num? ==> -(dist + 1) <= r.pos2Shift.n <= dist + 1
  {
    var (donorPos, acceptorPos) := ToRoles(strand, pos1, pos2);
    var (donorPosOut, donorShift) := AdjustSlot(anno, Donor, chrom, donorPos, strand, dist, naValue);
    var (acceptorPosOut, acceptorShift) := AdjustSlot(anno, Acceptor, chrom, acceptorPos, strand, dist, naValue);
    var (adjust1, adjust2) := FromRoles(strand, donorPosOut, acceptorPosOut);
    var (shift1, shift2) := FromRoles(strand, donorShift, acceptorShift);
    Adjustment(adjust1, adjust2, shift1, shift2)
  }

  /**
   `--dist -1` passes a tolerance of 0, which is falsy: the gate is skipped and an
   end is adjusted whenever its table holds any site on the chromosome and strand.
   */
  lemma MinusOneDisablesGate(anno: Annotation, chrom: string, pos1: int, pos2: int, strand: string, naValue: string)
    requires IsValidStrand(strand)
    ensures var r := AdjustPositions(anno, chrom, pos1, pos2, strand, -1, naValue);
            var (t1, t2) := FromRoles(strand, Donor, Acceptor);
            && (r.adjustPos1.Num? <==> exists s | s in anno.Table(t1) :: Matches(s, chrom, Some(strand)))
            && (r.adjustPos2.Num? <==> exists s | s in anno.Table(t2) :: Matches(s, chrom, Some(strand)))
  {
  }

  /** `--dist` below -1 gives a negative truthy tolerance that every distance exceeds. */
  lemma NegativeToleranceRejectsAll(anno: Annotation, chrom: string, pos1: int, pos2: int, strand: string,
                                    dist: int, naValue: string)
    requires IsValidStrand(strand) && dist <= -2
    ensures AdjustPositions(anno, chrom, pos1, pos2, strand, dist, naValue)
            == Adjustment(Na(naValue), Na(naValue), Na(naValue), Na(naValue))
  {
  }

  /**
   On an ordered table, an end lying on an annotated site of its role stays there
   with a zero shift, for any `--dist` of -1 or more.
   */
  lemma AnnotatedEndStays(anno: Annotation, t: SiteType, chrom: string, query: int, strand: string,
                          dist: int, naValue: string)
    requires dist >= -1
    requires OrderedTable(anno.Table(t), chrom, Some(strand))
    requires IsAnnotatedAt(anno, t, chrom, strand, query)
    ensures AdjustSlot(anno, t, chrom, query, strand, dist, naValue) == (Num(query), Num(0))
  {
    NearestIsClosest(anno, t, chrom, query, Some(strand), Some(dist + 1));
    var s :| s in anno.Table(t) && Matches(s, chrom, Some(strand)) && s.pos == query;
    assert Distance(s, query) == 0;
  }

  /**
   On ordered tables, a breakpoint whose two ends already lie on annotated sites of
   their roles keeps its coordinates and gets zero shifts.
   */
  lemma AnnotatedEndsStay(anno: Annotation, chrom: string, pos1: int, pos2: int, strand: string,
                          dist: int, naValue: string)
    requires IsValidStrand(strand) && dist >= -1
    requires OrderedTable(anno.Table(Donor), chrom, Some(strand))
    requires OrderedTable(anno.Table(Acceptor), chrom, Some(strand))
    requires IsAnnotatedAt(anno, FromRoles(strand, Donor, Acceptor).0, chrom, strand, pos1)
    requires IsAnnotatedAt(anno, FromRoles(strand, Donor, Acceptor).1, chrom, strand, pos2)
    ensures AdjustPositions(anno, chrom, pos1, pos2, strand, dist, naValue)
            == Adjustment(Num(pos1), Num(pos2), Num(0), Num(0))
  {
    var (t1, t2) := FromRoles(strand, Donor, Acceptor);
    AnnotatedEndStays(anno, t1, chrom, pos1, strand, dist, naValue);
    AnnotatedEndStays(anno, t2, chrom, pos2, strand, dist, naValue);
  }

  /**
   A `+` breakpoint at 100/200 on chr1 with an acceptor at 101 and a donor at 205
   moves to 101/205 with shifts 1 and 5, under `--dist 5` and also under `--dist 4`,
   whose acceptance radius is 5.
   */
  lemma WorkedExample(naValue: string)
    ensures var anno := Annotation([Site(1, "chr1", "+", 205)], [Site(1, "chr1", "+", 101)]);
            && AdjustPositions(anno, "chr1", 100, 200, "+", 5, naValue) == Adjustment(Num(101), Num(205), Num(1), Num(5))
            && AdjustPositions(anno, "chr1", 100, 200, "+", 4, naValue) == Adjustment(Num(101), Num(205), Num(1), Num(5))
            && AdjustPositions(anno, "chr1", 100, 200, "+", 3, naValue) == Adjustment(Num(101), Na(naValue), Num(1), Na(naValue))
  {
  }
}

