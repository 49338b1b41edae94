/**
 Nearest annotated junction site to a query position, as the `Annotation`
 class of `adjust_to_exon_boundary.py` computes it.

 The annotation store is modelled as one immutable table of site rows per
 site type, each table in store order.  The two store queries become
 searches over that table: the "up" candidate is the FIRST matching row in
 store order at or above the query (the query has no `order_by`), the
 "down" candidate is the matching row with the HIGHEST id at or below it
 (`order_by(id.desc()).first()`).
 */
module JunctionSites {
  import opened Wrappers

  /** A junction-site row: `id` is the insertion-order key, `pos` is `junc_site`. */
  datatype Site = Site(id: int, chrom: string, strand: string, pos: int)

  /** Which table a lookup reads. */
  datatype SiteType = Donor | Acceptor

  /** The annotation store: one table per site type, each in store order. */
  datatype Annotation = Annotation(donorSites: seq<Site>, acceptorSites: seq<Site>) {
    function Table(t: SiteType): seq<Site> {
      match t
      case Donor => donorSites
      case Acceptor => acceptorSites
    }
  }

  /** `abs(site.junc_site - pos)` */
  function Distance(s: Site, pos: int): nat {
    if s.pos >= pos then s.pos - pos else pos - s.pos
  }

  /** The row is on the requested chromosome and, when a strand is given, on that strand. */
  predicate Matches(s: Site, chrom: string, strand: Option<string>) {
    s.chrom == chrom && (strand.None? || s.strand == strand.value)
  }

  predicate IsUp(s: Site, chrom: string, strand: Option<string>, pos: int) {
    Matches(s, chrom, strand) && s.pos >= pos
  }

  predicate IsDown(s: Site, chrom: string, strand: Option<string>, pos: int) {
    Matches(s, chrom, strand) && s.pos <= pos
  }

  /** Index of the first row, in store order, that matches and lies at or above `pos`. */
  function UpCandidate(sites: seq<Site>, chrom: string, strand: Option<string>, pos: int): (r: Option<nat>)
    ensures r.Some? ==> r.value < |sites| && IsUp(sites[r.value], chrom, strand, pos)
    ensures r.Some? ==> forall j | 0 <= j < r.value :: !IsUp(sites[j], chrom, strand, pos)
    ensures r.None? ==> forall j | 0 <= j < |sites| :: !IsUp(sites[j], chrom, strand, pos)
  {
    if |sites| == 0 then None
    else if IsUp(sites[0], chrom, strand, pos) then Some(0)
    else
      match UpCandidate(sites[1..], chrom, strand, pos)
      case None => None
      case Some(i) => Some(i + 1)
  }

  /** Index of the matching row with the largest id among those at or below `pos`. */
  function DownCandidate(sites: seq<Site>, chrom: string, strand: Option<string>, pos: int): (r: Option<nat>)
    ensures r.Some? ==> r.value < |sites| && IsDown(sites[r.value], chrom, strand, pos)
    ensures r.Some? ==> forall j | 0 <= j < |sites| && IsDown(sites[j], chrom, strand, pos) ::
                          sites[j].id <= sites[r.value].id
    ensures r.None? ==> forall j | 0 <= j < |sites| :: !IsDown(sites[j], chrom, strand, pos)
  {
    if |sites| == 0 then None
    else
      var rest := match DownCandidate(sites[1..], chrom, strand, pos)
                  case None => None
                  case Some(i) => Some(i + 1);
      if IsDown(sites[0], chrom, strand, pos) && (rest.None? || sites[rest.value].id < sites[0].id)
      then Some(0)
      else rest
  }

  function At(sites: seq<Site>, i: Option<nat>): (r: Option<Site>)
    requires i.Some? ==> i.value < |sites|
    ensures r.Some? <==> i.Some?
    ensures r.Some? ==> r.value == sites[i.value]
  {
    match i
    case None => None
    case Some(k) => Some(sites[k])
  }

  /**
   `_get_nearest_site`: the closer of the two candidates; on equal distance the
   up candidate, because `min` keeps the first element of `[up, down]`.
   */
  function NearestSite(up: Option<Site>, down: Option<Site>, pos: int): (r: Option<Site>)
    ensures r.None? <==> up.None? && down.None?
    ensures up.Some? && down.None? ==> r == up
    ensures up.None? && down.Some? ==> r == down
    ensures up.Some? && down.Some? ==> r == up || r == down
    ensures up.Some? && down.Some? ==>
              Distance(r.value, pos) <= Distance(up.value, pos) &&
              Distance(r.value, pos) <= Distance(down.value, pos)
    ensures up.Some? && down.Some? && Distance(up.value, pos) == Distance(down.value, pos) ==> r == up
  {
    if up.Some? && down.Some? then
      if Distance(down.value, pos) < Distance(up.value, pos) then down else up
    else if up.None? && down.Some? then down
    else if up.Some? && down.None? then up
    else None
  }

  /** The tolerance is falsy (`None` or `0`) exactly when the gate is skipped. */
  predicate GateOn(dist: Option<int>) {
    dist.Some? && dist.value != 0
  }

  /** Lines 24-26: drop a result farther than a truthy tolerance. */
  function Gate(result: Option<Site>, pos: int, dist: Option<int>): (r: Option<Site>)
    ensures r.None? || r == result
    ensures r.Some? && GateOn(dist) ==> Distance(r.value, pos) <= dist.value
    ensures result.Some? && (!GateOn(dist) || Distance(result.value, pos) <= dist.value) ==> r == result
  {
    if result.Some? && GateOn(dist) && Distance(result.value, pos) > dist.value then None else result
  }

  /** `_get_nearest_junc_site(JuncSiteType, chr_name, pos, strand, dist)` */
  function NearestJuncSite(anno: Annotation, t: SiteType, chrom: string, pos: int,
                           strand: Option<string>, dist: Option<int>): (r: Option<Site>)
    ensures r.Some? ==> r.value in anno.Table(t) && Matches(r.value, chrom, strand)
    ensures r.Some? && GateOn(dist) ==> Distance(r.value, pos) <= dist.value
    ensures !GateOn(dist) ==>
              (r.Some? <==> exists i | 0 <= i < |anno.Table(t)| :: Matches(anno.Table(t)[i], chrom, strand))
  {
    var sites := anno.Table(t);
    var up := At(sites, UpCandidate(sites, chrom, strand, pos));
    var down := At(sites, DownCandidate(sites, chrom, strand, pos));
    Gate(NearestSite(up, down, pos), pos, dist)
  }

  /** The gate only filters: a gated lookup is the ungated lookup passed through `Gate`. */
  lemma GatedLookupFiltersUngated(anno: Annotation, t: SiteType, chrom: string, pos: int,
                                  strand: Option<string>, dist: Option<int>)
    ensures NearestJuncSite(anno, t, chrom, pos, strand, dist)
            == Gate(NearestJuncSite(anno, t, chrom, pos, strand, None), pos, dist)
  {
  }

  /**
   The callers pass `args.dist + 1`: a site at distance exactly `d + 1` from the
   query is still accepted, and one at `d + 2` is not (for `d + 1 > 0`).
   */
  lemma ToleranceBoundary(anno: Annotation, t: SiteType, chrom: string, pos: int,
                          strand: Option<string>, d: int, s: Site)
    requires NearestJuncSite(anno, t, chrom, pos, strand, None) == Some(s)
    ensures Distance(s, pos) == d + 1 ==> NearestJuncSite(anno, t, chrom, pos, strand, Some(d + 1)) == Some(s)
    ensures d + 1 > 0 && Distance(s, pos) == d + 2 ==> NearestJuncSite(anno, t, chrom, pos, strand, Some(d + 1)) == None
  {
  }

  /**
   A table whose matching rows ascend both in position and in id, which is
   how an annotation loaded in genomic order looks.
   */
  ghost predicate OrderedTable(sites: seq<Site>, chrom: string, strand: Option<string>) {
    forall i, j | 0 <= i < j < |sites| && Matches(sites[i], chrom, strand) && Matches(sites[j], chrom, strand) ::
      sites[i].pos <= sites[j].pos && sites[i].id < sites[j].id
  }

  /** On an ordered table the up candidate is the lowest matching row at or above the query. */
  lemma UpIsLowest(sites: seq<Site>, chrom: string, pos: int, strand: Option<string>, j: nat)
    requires OrderedTable(sites, chrom, strand)
    requires j < |sites| && IsUp(sites[j], chrom, strand, pos)
    ensures var u := UpCandidate(sites, chrom, strand, pos);
            u.Some? && sites[u.value].pos <= sites[j].pos
  {
  }

  /** On an ordered table the down candidate is the highest matching row at or below the query. */
  lemma DownIsHighest(sites: seq<Site>, chrom: string, pos: int, strand: Option<string>, j: nat)
    requires OrderedTable(sites, chrom, strand)
    requires j < |sites| && IsDown(sites[j], chrom, strand, pos)
    ensures var d := DownCandidate(sites, chrom, strand, pos);
            d.Some? && sites[j].pos <= sites[d.value].pos
  {
    var d := DownCandidate(sites, chrom, strand, pos);
    assert sites[j].id <= sites[d.value].id;
  }

  /**
   On an ordered table the ungated lookup is no farther from the query than any
   matching row: the up candidate is the lowest row at or above the query, the
   down candidate the highest row at or below it.
   */
  lemma UngatedIsClosest(sites: seq<Site>, chrom: string, pos: int,
                         strand: Option<string>, s: Site)
    requires OrderedTable(sites, chrom, strand)
    requires s in sites && Matches(s, chrom, strand)
    ensures var r := NearestSite(At(sites, UpCandidate(sites, chrom, strand, pos)),
                                 At(sites, DownCandidate(sites, chrom, strand, pos)), pos);
            r.Some? && Distance(r.value, pos) <= Distance(s, pos)
  {
    var j :| 0 <= j < |sites| && sites[j] == s;
    if s.pos >= pos {
      UpIsLowest(sites, chrom, pos, strand, j);
    } else {
      DownIsHighest(sites, chrom, pos, strand, j);
    }
  }

  /**
   On an ordered table the lookup returns a truly nearest matching site, and a
   miss means that no matching site lies within the (truthy) tolerance.
   */
  lemma NearestIsClosest(anno: Annotation, t: SiteType, chrom: string, pos: int,
                         strand: Option<string>, dist: Option<int>)
    requires OrderedTable(anno.Table(t), chrom, strand)
    ensures var r := NearestJuncSite(anno, t, chrom, pos, strand, dist);
            r.Some? ==> forall s | s in anno.Table(t) && Matches(s, chrom, strand) ::
                          Distance(r.value, pos) <= Distance(s, pos)
    ensures var r := NearestJuncSite(anno, t, chrom, pos, strand, dist);
            r.None? ==> forall s | s in anno.Table(t) && Matches(s, chrom, strand) ::
                          GateOn(dist) && Distance(s, pos) > dist.value
  {
    forall s | s in anno.Table(t) && Matches(s, chrom, strand) {
      UngatedIsClosest(anno.Table(t), chrom, pos, strand, s);
    }
  }

  /**
   Without the ordering the lookup need not find the nearest site: with rows at
   110, 100 and 95 in that store order, a query at 100 takes 110 as its up
   candidate and the higher-id row at 95 as its down candidate, and so moves
   the position by 5 although a site lies exactly on it.
   */
  lemma UnorderedTableMissesExactSite()
    ensures var anno := Annotation([Site(1, "chr1", "+", 110), Site(2, "chr1", "+", 100), Site(3, "chr1", "+", 95)], []);
            NearestJuncSite(anno, Donor, "chr1", 100, Some("+"), None) == Some(Site(3, "chr1", "+", 95))
  {
  }
}

