/**
 * The hand-over in src/main.cpp: the tree and the tables that
 * `parse_formula` returns are passed to `tseitin_transform` as they are.
 */
module Pipeline {
  import opened VarTables
  import opened Formulas
  import opened Cnf
  import opened Parser
  import opened Tseitin

  /** A parsed tree with no null child is a finished tree named by the parser's tables. */
  lemma {:induction false} WellFormedNamed(t: Formula, n: Names)
    requires WellFormed(t, n) && HoleFree(t)
    ensures Named(t, n) && Complete(t)
  {
    match t
    case Variable(_, _) =>
    case Negated(g) => WellFormedNamed(g, n);
    case Binary(l, r, _) =>
      WellFormedNamed(l, n);
      WellFormedNamed(r, n);
  }

  /**
   * A successful parse with no null child meets what `tseitin_transform`
   * needs, and when the formula has no `<->` its transform is satisfiable
   * exactly when the formula is.
   */
  lemma ParsedTransform(s: string)
    requires Parse(s).Parsed? && HoleFree(Parse(s).f)
    ensures var (t, n) := (Parse(s).f, Parse(s).names);
      && n.Valid() && Named(t, n) && Complete(t) && VarsBelow(t, |n.rmap|)
      && (NoEquiv(t) ==>
            ((exists val: nat -> bool :: Eval(t, val)) <==>
             (exists val: nat -> bool :: CnfSat(val, TransformSpec(n, t).1))))
  {
    var (t, n) := (Parse(s).f, Parse(s).names);
    WellFormedNamed(t, n);
    if NoEquiv(t) {
      TransformEquisatisfiable(n, t);
    }
  }
}
