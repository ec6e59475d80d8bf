/**
 * The formula tree of formula.h and its canonical printer. The four node
 * classes `Invalid`, `Variable`, `Negated` and `Binary` become constructors
 * of one datatype; `Hole` stands for a null child pointer, which the parser
 * leaves behind when the input ends where an operand is expected.
 */
module Formulas {
  import opened Wrappers
  import opened Text
  import opened VarTables

  datatype Connective = And | Or | Imply | Equiv

  datatype Formula =
    | Hole
    | Invalid(errorPos: nat, expects: char)
    | Variable(id: nat, name: string)
    | Negated(f: Formula)
    | Binary(l: Formula, r: Formula, op: Connective)

  /** No null child anywhere: the virtual calls of formula.h never dereference null. */
  predicate HoleFree(f: Formula) {
    match f
    case Hole => false
    case Invalid(_, _) => true
    case Variable(_, _) => true
    case Negated(g) => HoleFree(g)
    case Binary(l, r, _) => HoleFree(l) && HoleFree(r)
  }

  /** A finished tree: no null child and no error node. */
  predicate Complete(f: Formula): (b: bool)
    ensures b ==> HoleFree(f)
  {
    match f
    case Hole => false
    case Invalid(_, _) => false
    case Variable(_, _) => true
    case Negated(g) => Complete(g)
    case Binary(l, r, _) => Complete(l) && Complete(r)
  }

  /** A finished tree whose variable names are variable tokens, as the parser produces. */
  ghost predicate Printable(f: Formula): (b: bool)
    ensures b ==> Complete(f)
  {
    match f
    case Hole => false
    case Invalid(_, _) => false
    case Variable(_, name) => IsVarName(name)
    case Negated(g) => Printable(g)
    case Binary(l, r, _) => Printable(l) && Printable(r)
  }

  /** Every variable id is below n. */
  predicate VarsBelow(f: Formula, n: nat) {
    match f
    case Hole => true
    case Invalid(_, _) => true
    case Variable(id, _) => id < n
    case Negated(g) => VarsBelow(g, n)
    case Binary(l, r, _) => VarsBelow(l, n) && VarsBelow(r, n)
  }

  function Symbol(op: Connective): string {
    match op
    case And => "&"
    case Or => "|"
    case Imply => "->"
    case Equiv => "<->"
  }

  /** `print`: the canonical, fully parenthesised text of a formula. */
  function Print(f: Formula): string
    requires HoleFree(f)
  {
    match f
    case Invalid(_, _) => "INVALID"
    case Variable(_, name) => name
    case Negated(g) => "!" + Print(g)
    case Binary(l, r, op) => "(" + Print(l) + Symbol(op) + Print(r) + ")"
  }

  /** The characters a print of a parsed formula is made of. */
  predicate PrintChar(c: char) {
    IsVarChar(c) || c in "!()&|-<>"
  }

  /** What the first character of a print reveals, and what characters it uses. */
  lemma PrintCharsConcat(a: string, b: string)
    requires forall i | 0 <= i < |a| :: PrintChar(a[i])
    requires forall i | 0 <= i < |b| :: PrintChar(b[i])
    ensures forall i | 0 <= i < |a + b| :: PrintChar((a + b)[i])
  {
    forall i | 0 <= i < |a + b| ensures PrintChar((a + b)[i]) {
      if i >= |a| { assert (a + b)[i] == b[i - |a|]; }
    }
  }

  lemma {:induction false} PrintShape(f: Formula)
    requires Printable(f)
    ensures |Print(f)| > 0
    ensures f.Variable? ==> IsVarChar(Print(f)[0])
    ensures f.Negated? ==> Print(f)[0] == '!'
    ensures f.Binary? ==> Print(f)[0] == '('
    ensures forall i | 0 <= i < |Print(f)| :: PrintChar(Print(f)[i])
  {
    match f
    case Variable(_, _) =>
    case Negated(g) =>
      PrintShape(g);
      PrintCharsConcat("!", Print(g));
    case Binary(l, r, op) =>
      PrintShape(l);
      PrintShape(r);
      var pl, sy, pr := Print(l), Symbol(op), Print(r);
      assert forall i | 0 <= i < |sy| :: PrintChar(sy[i]);
      PrintCharsConcat("(", pl);
      PrintCharsConcat("(" + pl, sy);
      PrintCharsConcat("(" + pl + sy, pr);
      PrintCharsConcat("(" + pl + sy + pr, ")");
  }

  /** A compound formula prints to text that is not a variable token, so its key never meets a source name. */
  lemma CompoundPrintIsNotName(f: Formula)
    requires HoleFree(f) && (f.Negated? || f.Binary?)
    ensures !IsVarName(Print(f))
  {
    assert !IsVarChar(Print(f)[0]);
  }

  /** The formula with every variable id forgotten: what the print determines. */
  function Strip(f: Formula): Formula {
    match f
    case Hole => Hole
    case Invalid(p, e) => Invalid(p, e)
    case Variable(_, name) => Variable(0, name)
    case Negated(g) => Negated(Strip(g))
    case Binary(l, r, op) => Binary(Strip(l), Strip(r), op)
  }

  /** The first character of a print tells the kind of node. */
  lemma SameKind(f: Formula, s: string, g: Formula, t: string)
    requires Printable(f) && Printable(g)
    requires Print(f) + s == Print(g) + t
    ensures f.Variable? == g.Variable? && f.Negated? == g.Negated? && f.Binary? == g.Binary?
  {
    PrintShape(f);
    PrintShape(g);
    assert (Print(f) + s)[0] == Print(f)[0] && (Print(g) + t)[0] == Print(g)[0];
  }

  /**
   * Unique readability of the print: a print followed by text that does not
   * continue a variable token splits only one way.
   */
  lemma {:induction false} UniqueReadability(f: Formula, s: string, g: Formula, t: string)
    requires Printable(f) && Printable(g)
    requires s == [] || !IsVarChar(s[0])
    requires t == [] || !IsVarChar(t[0])
    requires Print(f) + s == Print(g) + t
    ensures Strip(f) == Strip(g) && s == t
    decreases f, 1
  {
    SameKind(f, s, g, t);
    match f
    case Variable(_, a) =>
      SplitToken(a, s, g.name, t, IsVarChar);
    case Negated(f1) =>
      var x, y := Print(f1), Print(g.f);
      assert Print(f) == "!" + x;
      assert Print(g) == "!" + y;
      ConcatAssoc("!", x, s);
      ConcatAssoc("!", y, t);
      DropPrefix("!", x + s, y + t);
      UniqueReadability(f1, s, g.f, t);
    case Binary(_, _, _) =>
      UniqueReadabilityBinary(f, s, g, t);
  }

  /** The print of a binary node followed by s, with the concatenations regrouped to the right. */
  lemma BinarySplit(f: Formula, s: string)
    requires f.Binary? && HoleFree(f)
    ensures Print(f) + s == "(" + (Print(f.l) + (Symbol(f.op) + (Print(f.r) + (")" + s))))
  {
  }

  lemma {:induction false} UniqueReadabilityBinary(f: Formula, s: string, g: Formula, t: string)
    requires f.Binary? && g.Binary?
    requires Printable(f) && Printable(g)
    requires s == [] || !IsVarChar(s[0])
    requires t == [] || !IsVarChar(t[0])
    requires Print(f) + s == Print(g) + t
    ensures Strip(f) == Strip(g) && s == t
    decreases f, 0
  {
    var s1, t1 := ")" + s, ")" + t;
    var s2, t2 := Print(f.r) + s1, Print(g.r) + t1;
    var s3, t3 := Symbol(f.op) + s2, Symbol(g.op) + t2;
    BinarySplit(f, s);
    BinarySplit(g, t);
    DropPrefix("(", Print(f.l) + s3, Print(g.l) + t3);
    assert s3[0] == Symbol(f.op)[0] && t3[0] == Symbol(g.op)[0];
    UniqueReadability(f.l, s3, g.l, t3);
    assert f.op == g.op;
    DropPrefix(Symbol(f.op), s2, t2);
    UniqueReadability(f.r, s1, g.r, t1);
    DropPrefix(")", s, t);
  }

  /** Two parsed formulas print alike only if they are the same tree up to variable ids. */
  lemma PrintInjective(f: Formula, g: Formula)
    requires Printable(f) && Printable(g)
    requires Print(f) == Print(g)
    ensures Strip(f) == Strip(g)
  {
    UniqueReadability(f, [], g, []);
  }

  /** The `Invalid` nodes of a tree in left-to-right order. */
  function Invalids(f: Formula): seq<Formula> {
    match f
    case Hole => []
    case Invalid(_, _) => [f]
    case Variable(_, _) => []
    case Negated(g) => Invalids(g)
    case Binary(l, r, _) => Invalids(l) + Invalids(r)
  }

  /** `find_error`: the first `Invalid` node from the left, or none. */
  function FindError(f: Formula): (r: Option<Formula>)
    requires HoleFree(f)
    ensures r == if Invalids(f) == [] then None else Some(Invalids(f)[0])
    ensures r.Some? ==> r.value.Invalid?
  {
    match f
    case Invalid(_, _) => Some(f)
    case Variable(_, _) => None
    case Negated(g) => FindError(g)
    case Binary(l, r, _) =>
      var e := FindError(l);
      if e.Some? then e else FindError(r)
  }

  /** The truth table of a connective. */
  function Apply(op: Connective, a: bool, b: bool): bool {
    match op
    case And => a && b
    case Or => a || b
    case Imply => !a || b
    case Equiv => a == b
  }

  /** The truth value of a finished formula under a valuation of the variable ids. */
  function Eval(f: Formula, val: nat -> bool): bool
    requires Complete(f)
  {
    match f
    case Variable(id, _) => val(id)
    case Negated(g) => !Eval(g, val)
    case Binary(l, r, op) => Apply(op, Eval(l, val), Eval(r, val))
  }

  /** All subformulas of f, f included. */
  function Subformulas(f: Formula): set<Formula> {
    match f
    case Negated(g) => {f} + Subformulas(g)
    case Binary(l, r, _) => {f} + Subformulas(l) + Subformulas(r)
    case _ => {f}
  }
}
