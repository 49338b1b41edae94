/**
 `get_gene_names` of `get_gene_names.py`: collect the gene symbols reached
 from the donor and the acceptor site of a breakpoint, decide whether the
 two ends share a gene, and report each end's symbols as a sorted,
 comma-joined column in `pos1`/`pos2` order.
 */
module GeneNames {
  import opened Wrappers
  import opened JunctionSites
  import opened Strands
  import opened SymbolLists

  datatype Gene = Gene(geneSymbol: string)

  datatype Transcript = Transcript(gene: Gene)

  /** An exon with its `transcript` relationship, in the order the store yields it. */
  datatype Exon = Exon(transcripts: seq<Transcript>)

  /** A site row found by an exact lookup, seen through its `exons` relationship. */
  datatype LinkedSite = LinkedSite(exons: seq<Exon>)

  /**
   The exact lookups `get_donor_site` and `get_acceptor_site` of the annotation
   store, (site type, chromosome, position, strand) to a site or `None`.
   */
  type ExactLookup = (SiteType, string, int, string) -> Option<LinkedSite>

  /** The symbols of the genes of the transcripts. */
  function TranscriptGenes(ts: seq<Transcript>): set<string> {
    set t | t in ts :: t.gene.geneSymbol
  }

  /** The symbols of the genes of every transcript of every exon. */
  function ExonGenes(exons: seq<Exon>): set<string> {
    set e, t | e in exons && t in e.transcripts :: t.gene.geneSymbol
  }

  /** The gene set of a lookup result: empty when there is no site. */
  function SiteGenes(site: Option<LinkedSite>): set<string> {
    if site.None? then {} else ExonGenes(site.value.exons)
  }

  lemma TranscriptGenesSnoc(ts: seq<Transcript>, j: nat)
    requires j < |ts|
    ensures TranscriptGenes(ts[..j + 1]) == TranscriptGenes(ts[..j]) + {ts[j].gene.geneSymbol}
  {
  }

  lemma ExonGenesSnoc(exons: seq<Exon>, i: nat)
    requires i < |exons|
    ensures ExonGenes(exons[..i + 1]) == ExonGenes(exons[..i]) + TranscriptGenes(exons[i].transcripts)
  {
  }

  /**
   Lines 26-36: start from an empty set and add the gene symbol of every
   transcript of every exon of the site.
   */
  method CollectGenes(site: Option<LinkedSite>) returns (genes: set<string>)
    ensures genes == SiteGenes(site)
    ensures site.None? ==> genes == {}
    ensures forall g :: g in genes <==>
              site.Some? && exists e, t | e in site.value.exons && t in e.transcripts :: t.gene.geneSymbol == g
  {
    genes := {};
    if site.Some? {
      var exons := site.value.exons;
      for i := 0 to |exons|
        invariant genes == ExonGenes(exons[..i])
      {
        var ts := exons[i].transcripts;
        for j := 0 to |ts|
          invariant genes == ExonGenes(exons[..i]) + TranscriptGenes(ts[..j])
        {
          TranscriptGenesSnoc(ts, j);
          genes := genes + {ts[j].gene.geneSymbol};
        }
        assert ts[..|ts|] == ts;
        ExonGenesSnoc(exons, i);
      }
      assert exons[..|exons|] == exons;
    }
  }

  /** The intragenic column: `1`, `0`, or `''` (the empty string, not a placeholder). */
  datatype Intragenic = One | Zero | Blank

  /**
   Lines 38-45: `1` when both ends have genes and share one, `0` when both have
   genes and share none, and the empty string when either end has none.
   */
  function Classify(donorGenes: set<string>, acceptorGenes: set<string>): (r: Intragenic)
    ensures r == One <==> donorGenes != {} && acceptorGenes != {} && donorGenes * acceptorGenes != {}
    ensures r == Zero <==> donorGenes != {} && acceptorGenes != {} && donorGenes * acceptorGenes == {}
    ensures r == Blank <==> donorGenes == {} || acceptorGenes == {}
  {
    if |donorGenes| > 0 && |acceptorGenes| > 0 then
      var common := donorGenes * acceptorGenes;
      if |common| > 0 then One else Zero
    else Blank
  }

  /** Which end is the donor does not change the flag. */
  lemma ClassifySymmetric(a: set<string>, b: set<string>)
    ensures Classify(a, b) == Classify(b, a)
  {
  }

  /**
   `','.join(sorted(genes))`: empty for an empty set, and read back at its
   commas it is the sorted list of the symbols (symbols being free of commas).
   */
  function GeneColumn(genes: set<string>): (r: string)
    ensures genes == {} ==> r == ""
    ensures genes != {} && (forall g | g in genes :: ',' !in g) ==> Split(r, ',') == SortedSymbols(genes)
  {
    var sorted := SortedSymbols(genes);
    assert forall i | 0 <= i < |sorted| :: sorted[i] in genes;
    Join(sorted, ',')
  }

  /**
   A gene column, read back at its commas, lists every symbol of the set
   exactly once and in ascending order (symbols being free of commas).
   */
  lemma GeneColumnContents(genes: set<string>)
    requires genes != {}
    requires forall g | g in genes :: ',' !in g
    ensures var parts := Split(GeneColumn(genes), ',');
            && StrictlySorted(parts)
            && (forall g :: g in parts <==> g in genes)
            && |parts| == |genes|
  {
  }

  /** A column is empty exactly when its set is (symbols being non-empty). */
  lemma GeneColumnEmpty(genes: set<string>)
    requires "" !in genes
    ensures GeneColumn(genes) == "" <==> genes == {}
  {
    if genes != {} {
      var sorted := SortedSymbols(genes);
      assert |sorted| == 1 ==> sorted[0] in genes;
    }
  }

  datatype GeneAnnotation = GeneAnnotation(pos1Genes: string, pos2Genes: string, intragenic: Intragenic)

  /**
   `get_gene_names(chrm, pos1, pos2, strand, anno_db)`: the exact lookups are
   made at the role positions of the strand, the flag classifies the two gene
   sets, and the columns come back in slot order (acceptor first on `+`,
   donor first on `-`).
   */
  method GetGeneNames(chrom: string, pos1: int, pos2: int, strand: string, exactSite: ExactLookup)
    returns (r: GeneAnnotation)
    requires IsValidStrand(strand)
    ensures var (donorPos, acceptorPos) := ToRoles(strand, pos1, pos2);
            var donorGenes := SiteGenes(exactSite(Donor, chrom, donorPos, strand));
            var acceptorGenes := SiteGenes(exactSite(Acceptor, chrom, acceptorPos, strand));
            && r.intragenic == Classify(donorGenes, acceptorGenes)
            && (r.pos1Genes, r.pos2Genes) == FromRoles(strand, GeneColumn(donorGenes), GeneColumn(acceptorGenes))
  {
    var (donorPos, acceptorPos) := ToRoles(strand, pos1, pos2);
    var donor := exactSite(Donor, chrom, donorPos, strand);
    var acceptor := exactSite(Acceptor, chrom, acceptorPos, strand);
    var donorGenes := CollectGenes(donor);
    var acceptorGenes := CollectGenes(acceptor);
    var intragenic := Classify(donorGenes, acceptorGenes);
    var (pos1Genes, pos2Genes) := FromRoles(strand, GeneColumn(donorGenes), GeneColumn(acceptorGenes));
    r := GeneAnnotation(pos1Genes, pos2Genes, intragenic);
  }

  /**
   Donor genes {BRCA1} and acceptor genes {BRCA1, TP53} share a gene, so the flag
   is 1 and the columns are "BRCA1" and "BRCA1,TP53".
   */
  lemma SharedGeneExample()
    ensures Classify({"BRCA1"}, {"BRCA1", "TP53"}) == One
    ensures GeneColumn({"BRCA1"}) == "BRCA1"
    ensures GeneColumn({"BRCA1", "TP53"}) == "BRCA1,TP53"
  {
    assert "BRCA1" in {"BRCA1"} * {"BRCA1", "TP53"};
    SortedUnique(SortedSymbols({"BRCA1"}), ["BRCA1"]);
    TwoSymbolColumn();
  }

  lemma TwoSymbolColumn()
    ensures GeneColumn({"BRCA1", "TP53"}) == "BRCA1,TP53"
  {
    TwoSymbolsSorted();
    TwoSymbolsJoined();
  }

  lemma TwoSymbolsJoined()
    ensures Join(["BRCA1", "TP53"], ',') == "BRCA1,TP53"
  {
    var xs := ["BRCA1", "TP53"];
    assert xs[1..] == ["TP53"];
  }

  lemma TwoSymbolsSorted()
    ensures SortedSymbols({"BRCA1", "TP53"}) == ["BRCA1", "TP53"]
  {
    assert LexLe("BRCA1", "TP53");
    SortedUnique(SortedSymbols({"BRCA1", "TP53"}), ["BRCA1", "TP53"]);
  }
}
