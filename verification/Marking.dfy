/** Marking every p-th entry of a table: the loops shared by the mini-sieve of
    new_src/halfclass.c, the covers of new_src/covering.c and new_src/gap_target.c and the
    template of new_src/crt_runtime.c. */
module Marking {
  import opened NumberTheory

  /** p divides the value at position m of a table that starts at b. */
  predicate Divides(p: nat, b: nat, m: nat)
    requires p > 0
  {
    (b + m) % p == 0
  }

  lemma FirstMultiple(b: nat, p: nat)
    requires p > 0
    ensures var f := if b % p > 0 then p - b % p else 0;
            Divides(p, b, f) && forall j :: 0 <= j < f ==> !Divides(p, b, j)
  {
    var rem := b % p;
    var f := if rem > 0 then p - rem else 0;
    if rem > 0 { DivModUnique(b + f, p, b / p + 1, 0); }
    forall j | 0 <= j < f ensures !Divides(p, b, j) {
      DivModUnique(b + j, p, b / p, rem + j);
    }
  }

  lemma NextMultiple(b: nat, m: nat, p: nat)
    requires p > 0 && Divides(p, b, m)
    ensures Divides(p, b, m + p)
    ensures forall j :: m < j < m + p ==> !Divides(p, b, j)
  {
    var q := (b + m) / p;
    assert b + m == q * p;
    assert (q + 1) * p == q * p + p;
    DivModUnique(b + (m + p), p, q + 1, 0);
    forall j | m < j < m + p ensures !Divides(p, b, j) { NotDivided(b, j, p, q, j - m); }
  }

  lemma NotDivided(b: nat, j: nat, p: nat, q: nat, i: nat)
    requires 0 < i < p && b + j == q * p + i
    ensures !Divides(p, b, j)
  {
    DivModUnique(b + j, p, q, i);
  }
}
