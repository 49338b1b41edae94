/**
 The strand-dependent assignment of a breakpoint's two raw positions to the
 donor and acceptor roles.  Both `adjust_positions` and `get_gene_names`
 apply the same table: on `+` the donor is at `pos2` and the acceptor at
 `pos1`; on `-` the donor is at `pos1` and the acceptor at `pos2`.  Any other
 strand leaves the roles unbound and the call fails, so it is a precondition.
 */
module Strands {

  predicate IsValidStrand(strand: string) {
    strand == "+" || strand == "-"
  }

  /** The (donor, acceptor) pair of the values at slots 1 and 2. */
  function ToRoles<T>(strand: string, at1: T, at2: T): (r: (T, T))
    requires IsValidStrand(strand)
    ensures strand == "+" ==> r.0 == at2 && r.1 == at1
    ensures strand == "-" ==> r.0 == at1 && r.1 == at2
  {
    if strand == "+" then (at2, at1) else (at1, at2)
  }

  /** The (slot 1, slot 2) pair of a donor and an acceptor value: the inverse of `ToRoles`. */
  function FromRoles<T>(strand: string, donor: T, acceptor: T): (r: (T, T))
    requires IsValidStrand(strand)
    ensures ToRoles(strand, r.0, r.1) == (donor, acceptor)
  {
    if strand == "+" then (acceptor, donor) else (donor, acceptor)
  }

  /** Mapping a breakpoint to roles and back gives the breakpoint again. */
  lemma RolesRoundTrip<T>(strand: string, at1: T, at2: T)
    requires IsValidStrand(strand)
    ensures var (donor, acceptor) := ToRoles(strand, at1, at2);
            FromRoles(strand, donor, acceptor) == (at1, at2)
  {
  }
}
