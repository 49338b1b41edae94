# Breakpoint adjustment and gene annotation, modelled in Dafny

The model covers the two decision procedures of the circular-RNA breakpoint tools.

`adjust_to_exon_boundary.py` moves each end of a back-splice breakpoint to an annotated junction site of its role near it: the nearer of the first site at or above the end and the last site below it, which is the nearest site when the store keeps each table in position order. The donor and acceptor roles are assigned by strand. The search only accepts sites within a tolerance. The script reports the adjusted positions and signed shifts in `pos1`/`pos2` order.

`get_gene_names.py` collects the gene symbols reached from each end's exact site through exon → transcript → gene. It classifies the breakpoint as intragenic (`1`), not intragenic (`0`) or unknown (`''`). It reports each end's symbols as a sorted, comma-joined column.

The annotation store is modelled as one immutable table of site rows `(id, chrom, strand, pos)` per site type, each table in store order. The two store queries of `_get_nearest_junc_site` become searches over that table:
- the up candidate is the first matching row in store order at or above the query;
- the down candidate is the matching row with the largest id at or below it.

Files, one module each:
- `wrappers.dfy`: `Option`, for Python's `None`-or-object results.
- `junction_sites.dfy`: `_get_nearest_junc_site`, `_get_nearest_site` and the tolerance gate.
- `strands.dfy`: the strand → donor/acceptor table that both scripts use, and its inverse.
- `breakpoint_adjust.dfy`: `adjust_positions`, with `--dist` as an explicit parameter.
- `symbol_lists.dfy`: Python's string order, `sorted` of a set, `','.join`, and a `Split` that reads a joined column back.
- `gene_names.dfy`: `get_gene_names`. The gene collection is a method with the source's two nested loops; classification and the columns are functions.

Behaviour to note:
- The up candidate is the first match in store order, not the smallest position at or above the query, because the query has no `order_by`. `UpIsLowest` and `DownIsHighest` prove that the candidates are the lowest row at or above and the highest row at or below the query when a table's matching rows ascend in both position and id; `NearestIsClosest` builds on them to show that the lookup then finds a true nearest site. `UnorderedTableMissesExactSite` shows a store order where they do not.
- The tolerance is skipped when it is falsy: `None`, and also `0`. So `--dist -1` turns the gate off, and `--dist` of -2 or less rejects every site.
- `get_gene_names` writes the empty string, not a configurable placeholder, both for an empty gene column and for the unknown intragenic flag. It takes no placeholder argument.
- A strand other than `+` or `-` is not an error value. The source fails with an unbound local variable, so the model makes it a precondition (`IsValidStrand`).
- The gene annotator uses the store's exact lookups, `get_donor_site` and `get_acceptor_site`, not the tolerance search. The model takes them as a given function.

## Model

| member | source | states |
|---|---|---|
| JunctionSites.UpCandidate | adjust_to_exon_boundary.py:17 | the index of the first row in store order on the chromosome (and strand, if given) with position at or above the query; none exactly when no such row exists |
| JunctionSites.DownCandidate | adjust_to_exon_boundary.py:18-20 | a matching row at or below the query whose id is at least that of every such row; none exactly when no such row exists |
| JunctionSites.NearestSite | adjust_to_exon_boundary.py:31-50 | none iff both candidates are absent; the sole candidate when only one exists; otherwise a candidate no farther than either, and the up candidate on equal distance |
| JunctionSites.Gate | adjust_to_exon_boundary.py:24-26 | the result is kept or dropped; it is dropped exactly when the tolerance is truthy and the result lies beyond it |
| JunctionSites.NearestJuncSite | adjust_to_exon_boundary.py:8-28 | any returned site is a row of the table on the requested chromosome and strand and within a truthy tolerance; with the gate off a site is returned iff some row matches |
| JunctionSites.GatedLookupFiltersUngated | adjust_to_exon_boundary.py:22-28 | a gated lookup equals the ungated lookup passed through the gate |
| JunctionSites.ToleranceBoundary | adjust_to_exon_boundary.py:24-26 | with tolerance `d + 1`, a nearest site at distance `d + 1` is kept and one at `d + 2` is dropped |
| JunctionSites.UpIsLowest | adjust_to_exon_boundary.py:17 | on a table whose matching rows ascend in position and id, the up candidate exists whenever some matching row lies at or above the query, and is no higher than any such row |
| JunctionSites.DownIsHighest | adjust_to_exon_boundary.py:18-20 | on such a table, the down candidate exists whenever some matching row lies at or below the query, and is no lower than any such row |
| JunctionSites.UngatedIsClosest | adjust_to_exon_boundary.py:17-22 | on a table whose matching rows ascend in position and id, the ungated choice between the two candidates is no farther from the query than any matching row |
| JunctionSites.NearestIsClosest | adjust_to_exon_boundary.py:17-22 | on a table whose matching rows ascend in position and id, a found site is no farther than any matching row, and a miss means every matching row is beyond the tolerance |
| JunctionSites.UnorderedTableMissesExactSite | adjust_to_exon_boundary.py:17-20 | rows at 110, 100, 95 in store order: a query at 100 returns the row at 95 |
| Strands.ToRoles | adjust_to_exon_boundary.py:65-68 | on `+` the donor is at `pos2` and the acceptor at `pos1`; on `-` the reverse |
| Strands.FromRoles | adjust_to_exon_boundary.py:87-96 | mapping the donor and acceptor values back to slots is undone by `ToRoles` |
| Strands.RolesRoundTrip | get_gene_names.py:18-21 | mapping a breakpoint's two values to roles and back returns them unchanged |
| BreakpointAdjust.AdjustEnd | adjust_to_exon_boundary.py:73-85 | a found site gives its position and the signed shift from the query; a miss gives the placeholder in both columns |
| BreakpointAdjust.Lookup | adjust_to_exon_boundary.py:70-71 | a found site is a row of the role's table on the chromosome and strand, within `dist + 1` of the query when that is non-zero; with tolerance 0 a site is found iff some row matches |
| BreakpointAdjust.AdjustSlot | adjust_to_exon_boundary.py:70-85 | an adjusted end is an annotated site of its type on the chromosome and strand, its shift is measured from the end's query and lies within `dist + 1` when that is non-zero; a miss is the placeholder twice |
| BreakpointAdjust.AdjustPositions | adjust_to_exon_boundary.py:63-98 | each slot holds the lookup of its role (acceptor in slot 1 on `+`, donor on `-`) at its own raw position with tolerance `dist + 1`; an adjusted slot is an annotated site whose shift is measured from that slot and bounded by `dist + 1` when that is non-zero; a missed slot is the placeholder twice |
| BreakpointAdjust.MinusOneDisablesGate | adjust_to_exon_boundary.py:70-71 | with `--dist -1` a slot is adjusted iff its table holds any site on the chromosome and strand |
| BreakpointAdjust.NegativeToleranceRejectsAll | adjust_to_exon_boundary.py:70-71 | with `--dist` of -2 or less all four columns are the placeholder |
| BreakpointAdjust.AnnotatedEndStays | adjust_to_exon_boundary.py:73-82 | on an ordered table, an end lying on an annotated site of its role is reported at that position with a zero shift, for any `--dist` of -1 or more |
| BreakpointAdjust.AnnotatedEndsStay | adjust_to_exon_boundary.py:63-98 | on ordered tables, a breakpoint whose ends already lie on sites of their roles keeps its coordinates and gets zero shifts |
| BreakpointAdjust.WorkedExample | adjust_to_exon_boundary.py:63-98 | `+` breakpoint 100/200 on chr1, acceptor at 101, donor at 205: adjusted to 101/205 with shifts 1 and 5 under `--dist` 5 and 4; under `--dist` 3 the donor end is a miss |
| SymbolLists.LexLe | get_gene_names.py:48 | the recursive comparison agrees with the lexicographic reference `LexLeRef`: a prefix, or equal up to a first position where the left character is smaller |
| SymbolLists.LexLeTotal | get_gene_names.py:48 | any two strings are comparable under Python's string order |
| SymbolLists.LexLeAntisymmetric | get_gene_names.py:48 | two strings each at most the other are equal |
| SymbolLists.LexLeTransitive | get_gene_names.py:48 | the string order is transitive |
| SymbolLists.SortedSymbols | get_gene_names.py:48 | `sorted` of a set is strictly ascending, holds exactly the set's elements, and has the set's size |
| SymbolLists.SortedUnique | get_gene_names.py:47-52 | two strictly ascending lists with the same elements are equal, so the column does not depend on traversal order |
| SymbolLists.Join | get_gene_names.py:48-52 | splitting a join of one or more separator-free pieces at the separator gives the pieces back; a join is empty iff there are no pieces or a single empty one |
| GeneNames.CollectGenes | get_gene_names.py:26-36 | the collected set is exactly the symbols of the genes of every transcript of every exon of the site; empty when there is no site |
| GeneNames.Classify | get_gene_names.py:38-45 | `1` iff both sets are non-empty and intersect; `0` iff both are non-empty and disjoint; `''` iff either is empty |
| GeneNames.ClassifySymmetric | get_gene_names.py:38-43 | swapping the donor and acceptor sets does not change the flag |
| GeneNames.GeneColumn | get_gene_names.py:48-52 | an empty set gives the empty string; a non-empty set of comma-free symbols gives a column that reads back at its commas as the set in sorted order |
| GeneNames.GeneColumnContents | get_gene_names.py:47-52 | a non-empty column read back at its commas lists every symbol of the set once, ascending |
| GeneNames.GeneColumnEmpty | get_gene_names.py:47-52 | with non-empty symbols, a column is empty iff its set is |
| GeneNames.GetGeneNames | get_gene_names.py:17-54 | the exact lookups are made at the strand's donor and acceptor positions; the flag classifies the two gene sets; the columns are sorted joins in slot order (acceptor first on `+`, donor first on `-`) |
| GeneNames.SharedGeneExample | get_gene_names.py:38-52 | donor {BRCA1} and acceptor {BRCA1, TP53}: flag 1, columns `BRCA1` and `BRCA1,TP53` |
| GeneNames.TwoSymbolColumn | get_gene_names.py:48-52 | the set {BRCA1, TP53} gives the column `BRCA1,TP53` |

## Left out

- `read_region_file`, `create_parser`, the `__main__` loops and `print`: TSV line input, `int()` parsing, argparse and output are plumbing.
- The SQLAlchemy session and query chaining: replaced by searches over a table in store order.
- The `chr_dict` and `strand_dict` lookups: a row matches when its chromosome and strand equal the requested ones, so an unknown chromosome or strand finds no rows.
- The `circmimi.annotation` base class is not part of this model. The gated lookups `get_nearest_donor_site` and `get_nearest_acceptor_site` are taken to be `_get_nearest_junc_site` on the donor or acceptor table (`BreakpointAdjust.Lookup`).
- The exact lookups `get_donor_site` / `get_acceptor_site` and the ORM relationships `exons`, `exon.transcript` and `transcript.gene` are given inputs: a function (`GeneNames.ExactLookup`) and nested data (`LinkedSite`, `Exon`, `Transcript`, `Gene`).
- String order: `LexLe` compares code point by code point with a proper prefix first. No Unicode collation is modelled, and Python's `sorted` uses none either.
- Rows sharing an id: ids are primary keys, so the store never has two. The model keeps the later row as the down candidate, and `JunctionSites.DownCandidate` promises only a row of largest id.
