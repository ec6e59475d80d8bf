/**
 * Literals, clauses and CNFs of src/cnf.h with their `operator<<`
 * renderings, the meaning of a clause set under a valuation, and
 * `merge_cnf` of src/cnf.cpp.
 */
module Cnf {
  import opened Text

  /** A variable id with a polarity; `isTrue` is false for a negated literal. */
  datatype Literal = Literal(v: nat, isTrue: bool)

  /** A disjunction of literals, in order, duplicates allowed. */
  type Clause = seq<Literal>

  /** `"!"` for a negative literal, then the decimal id. */
  function LiteralText(l: Literal): string {
    (if l.isTrue then "" else "!") + Decimal(l.v)
  }

  /** The characters of a rendered literal. */
  predicate LitChar(c: char) {
    c == '!' || IsDigit(c)
  }

  lemma LiteralTextShape(l: Literal)
    ensures |LiteralText(l)| > 0
    ensures AllChars(LiteralText(l), LitChar)
    ensures LiteralText(l)[0] == '!' <==> !l.isTrue
  {
    var s := LiteralText(l);
    if !l.isTrue {
      assert forall i | 1 <= i < |s| :: s[i] == Decimal(l.v)[i - 1];
    }
  }

  /** Distinct literals render to distinct text. */
  lemma LiteralTextInjective(a: Literal, b: Literal)
    requires LiteralText(a) == LiteralText(b)
    ensures a == b
  {
    LiteralTextShape(a);
    LiteralTextShape(b);
    var da, db := Decimal(a.v), Decimal(b.v);
    assert a.isTrue == b.isTrue;
    if a.isTrue {
      assert LiteralText(a) == da && LiteralText(b) == db;
    } else {
      assert da == LiteralText(a)[1..] && db == LiteralText(b)[1..];
    }
    DecimalInjective(a.v, b.v);
  }

  /** `operator<<(Clause)`: `"("`, the literals joined by `"|"`, `")"`. */
  function ClauseText(c: Clause): (s: string)
    ensures |s| >= 2 && s[0] == '(' && s[|s| - 1] == ')'
    ensures c == [] <==> s == "()"
  {
    "(" + JoinLiterals(c) + ")"
  }

  function JoinLiterals(c: Clause): (s: string)
    ensures c == [] <==> s == []
  {
    if c == [] then "" else LiteralText(c[0]) + MoreLiterals(c[1..])
  }

  function MoreLiterals(c: Clause): (s: string)
    ensures c != [] ==> |s| > 0 && s[0] == '|'
    ensures c == [] ==> s == []
  {
    if c == [] then "" else "|" + LiteralText(c[0]) + MoreLiterals(c[1..])
  }

  /** `operator<<(CNF)`: the clauses joined by `"&"`; nothing at all for no clauses. */
  function CnfText(cnf: seq<Clause>): (s: string)
    ensures cnf == [] <==> s == []
  {
    if cnf == [] then "" else ClauseText(cnf[0]) + MoreClauses(cnf[1..])
  }

  function MoreClauses(cnf: seq<Clause>): (s: string)
    ensures cnf != [] ==> |s| > 0 && s[0] == '&'
    ensures cnf == [] ==> s == []
  {
    if cnf == [] then "" else "&" + ClauseText(cnf[0]) + MoreClauses(cnf[1..])
  }

  lemma Assoc3(a: string, b: string, c: string, d: string)
    ensures (a + b + c) + d == a + (b + (c + d))
  {
  }

  /** When `t == x + s` for nonempty `x`, `t` starts with `x[0]`. */
  lemma HeadAfter(x: string, s: string, t: string)
    requires |x| > 0 && x + s == t
    ensures |t| > 0 && t[0] == x[0]
  {
    assert (x + s)[0] == x[0];
  }

  /** Text that can follow a list of literals: not `|` and not part of a literal. */
  predicate EndsLiterals(s: string) {
    s == [] || (s[0] != '|' && !LitChar(s[0]))
  }

  lemma {:induction false} MoreLiteralsSplit(c: Clause, s: string, d: Clause, t: string)
    requires EndsLiterals(s) && EndsLiterals(t)
    requires MoreLiterals(c) + s == MoreLiterals(d) + t
    ensures c == d && s == t
    decreases |c|
  {
    if c != [] && d != [] {
      var x, y := MoreLiterals(c[1..]) + s, MoreLiterals(d[1..]) + t;
      Assoc3("|", LiteralText(c[0]), MoreLiterals(c[1..]), s);
      Assoc3("|", LiteralText(d[0]), MoreLiterals(d[1..]), t);
      DropPrefix("|", LiteralText(c[0]) + x, LiteralText(d[0]) + y);
      LiteralTextShape(c[0]);
      LiteralTextShape(d[0]);
      MoreLiteralsBoundary(c[1..], s);
      MoreLiteralsBoundary(d[1..], t);
      SplitToken(LiteralText(c[0]), x, LiteralText(d[0]), y, LitChar);
      LiteralTextInjective(c[0], d[0]);
      MoreLiteralsSplit(c[1..], s, d[1..], t);
      assert c == [c[0]] + c[1..] && d == [d[0]] + d[1..];
    } else if c != [] {
      HeadAfter(MoreLiterals(c), s, t);
      assert false;
    } else if d != [] {
      HeadAfter(MoreLiterals(d), t, s);
      assert false;
    } else {
      assert s == MoreLiterals(c) + s && t == MoreLiterals(d) + t;
    }
  }

  lemma JoinLiteralsHead(c: Clause)
    requires c != []
    ensures |JoinLiterals(c)| > 0 && LitChar(JoinLiterals(c)[0])
  {
    LiteralTextShape(c[0]);
    HeadAfter(LiteralText(c[0]), MoreLiterals(c[1..]), JoinLiterals(c));
  }

  /** What follows the first literal of a list cannot continue that literal. */
  lemma MoreLiteralsBoundary(c: Clause, s: string)
    requires EndsLiterals(s)
    ensures var x := MoreLiterals(c) + s; x == [] || !LitChar(x[0])
  {
    if c != [] {
      HeadAfter(MoreLiterals(c), s, MoreLiterals(c) + s);
    } else {
      assert MoreLiterals(c) + s == s;
    }
  }

  lemma JoinLiteralsSplitCons(c: Clause, s: string, d: Clause, t: string)
    requires c != [] && d != []
    requires EndsLiterals(s) && EndsLiterals(t)
    requires JoinLiterals(c) + s == JoinLiterals(d) + t
    ensures c == d && s == t
  {
    var x, y := MoreLiterals(c[1..]) + s, MoreLiterals(d[1..]) + t;
    ConcatAssoc(LiteralText(c[0]), MoreLiterals(c[1..]), s);
    ConcatAssoc(LiteralText(d[0]), MoreLiterals(d[1..]), t);
    LiteralTextShape(c[0]);
    LiteralTextShape(d[0]);
    MoreLiteralsBoundary(c[1..], s);
    MoreLiteralsBoundary(d[1..], t);
    SplitToken(LiteralText(c[0]), x, LiteralText(d[0]), y, LitChar);
    LiteralTextInjective(c[0], d[0]);
    MoreLiteralsSplit(c[1..], s, d[1..], t);
    assert c == [c[0]] + c[1..] && d == [d[0]] + d[1..];
  }

  lemma JoinLiteralsSplit(c: Clause, s: string, d: Clause, t: string)
    requires EndsLiterals(s) && EndsLiterals(t)
    requires JoinLiterals(c) + s == JoinLiterals(d) + t
    ensures c == d && s == t
  {
    if c != [] && d != [] {
      JoinLiteralsSplitCons(c, s, d, t);
    } else if c != [] {
      JoinLiteralsHead(c);
      HeadAfter(JoinLiterals(c), s, t);
      assert false;
    } else if d != [] {
      JoinLiteralsHead(d);
      HeadAfter(JoinLiterals(d), t, s);
      assert false;
    } else {
      assert s == JoinLiterals(c) + s && t == JoinLiterals(d) + t;
    }
  }

  /** A clause text ends at its first `)`: whatever follows it is split off exactly. */
  lemma ClauseTextSplit(c: Clause, s: string, d: Clause, t: string)
    requires ClauseText(c) + s == ClauseText(d) + t
    ensures c == d && s == t
  {
    var x, y := ")" + s, ")" + t;
    Assoc3("(", JoinLiterals(c), ")", s);
    Assoc3("(", JoinLiterals(d), ")", t);
    DropPrefix("(", JoinLiterals(c) + x, JoinLiterals(d) + y);
    JoinLiteralsSplit(c, x, d, y);
    DropPrefix(")", s, t);
  }

  /** Distinct clauses render to distinct text. */
  lemma ClauseTextInjective(c: Clause, d: Clause)
    requires ClauseText(c) == ClauseText(d)
    ensures c == d
  {
    ClauseTextSplit(c, [], d, []);
  }

  lemma {:induction false} MoreClausesSplit(a: seq<Clause>, b: seq<Clause>)
    requires MoreClauses(a) == MoreClauses(b)
    ensures a == b
    decreases |a|
  {
    if a != [] && b != [] {
      MoreClausesHead(a, b);
      MoreClausesSplit(a[1..], b[1..]);
      assert a == [a[0]] + a[1..] && b == [b[0]] + b[1..];
    } else if a != [] {
      assert false;
    } else if b != [] {
      assert false;
    }
  }

  /** Equal texts of two nonempty clause lists agree on the first clause and on the text of the rest. */
  lemma MoreClausesHead(a: seq<Clause>, b: seq<Clause>)
    requires a != [] && b != [] && MoreClauses(a) == MoreClauses(b)
    ensures a[0] == b[0] && MoreClauses(a[1..]) == MoreClauses(b[1..])
  {
    var x, y := MoreClauses(a[1..]), MoreClauses(b[1..]);
    ConcatAssoc("&", ClauseText(a[0]), x);
    ConcatAssoc("&", ClauseText(b[0]), y);
    DropPrefix("&", ClauseText(a[0]) + x, ClauseText(b[0]) + y);
    ClauseTextSplit(a[0], x, b[0], y);
  }

  /** Distinct clause lists render to distinct text. */
  lemma CnfTextInjective(a: seq<Clause>, b: seq<Clause>)
    requires CnfText(a) == CnfText(b)
    ensures a == b
  {
    if a != [] && b != [] {
      ClauseTextSplit(a[0], MoreClauses(a[1..]), b[0], MoreClauses(b[1..]));
      MoreClausesSplit(a[1..], b[1..]);
      assert a == [a[0]] + a[1..] && b == [b[0]] + b[1..];
    }
  }

  /** The truth value of a literal under a total valuation of the ids. */
  function LitValue(val: nat -> bool, l: Literal): bool {
    if l.isTrue then val(l.v) else !val(l.v)
  }

  /** A clause holds when one of its literals does; the empty clause never holds. */
  predicate ClauseSat(val: nat -> bool, c: Clause) {
    exists i | 0 <= i < |c| :: LitValue(val, c[i])
  }

  /** A clause list holds when every clause does. */
  predicate CnfSat(val: nat -> bool, cnf: seq<Clause>) {
    forall i | 0 <= i < |cnf| :: ClauseSat(val, cnf[i])
  }

  lemma CnfSatAppend(val: nat -> bool, a: seq<Clause>, b: seq<Clause>)
    ensures CnfSat(val, a + b) <==> CnfSat(val, a) && CnfSat(val, b)
  {
    if CnfSat(val, a) && CnfSat(val, b) {
      forall i | 0 <= i < |a + b| ensures ClauseSat(val, (a + b)[i]) {
        if i >= |a| { assert (a + b)[i] == b[i - |a|]; }
      }
    }
    if CnfSat(val, a + b) {
      forall i | 0 <= i < |a| ensures ClauseSat(val, a[i]) {
        assert (a + b)[i] == a[i];
      }
      forall i | 0 <= i < |b| ensures ClauseSat(val, b[i]) {
        assert (a + b)[|a| + i] == b[i];
      }
    }
  }

  lemma ClauseSatAppend(val: nat -> bool, c: Clause, d: Clause)
    ensures ClauseSat(val, c + d) <==> ClauseSat(val, c) || ClauseSat(val, d)
  {
    if ClauseSat(val, c + d) {
      var i :| 0 <= i < |c + d| && LitValue(val, (c + d)[i]);
      if i >= |c| { assert (c + d)[i] == d[i - |c|]; }
    }
    if ClauseSat(val, c) {
      var i :| 0 <= i < |c| && LitValue(val, c[i]);
      assert (c + d)[i] == c[i];
    }
    if ClauseSat(val, d) {
      var i :| 0 <= i < |d| && LitValue(val, d[i]);
      assert (c + d)[|c| + i] == d[i];
    }
  }

  /** A `CNF` object: the clause vector that `merge_cnf` and the Tseitin pass extend in place. */
  class CNF {
    var clauses: seq<Clause>

    constructor (cs: seq<Clause>)
      ensures clauses == cs
    {
      clauses := cs;
    }
  }

  /** `merge_cnf`: appends B's clauses to A in order and returns A. */
  method MergeCnf(a: CNF, b: CNF) returns (r: CNF)
    requires a != b
    modifies a
    ensures r == a
    ensures a.clauses == old(a.clauses) + b.clauses
    ensures |a.clauses| == |old(a.clauses)| + |b.clauses|
  {
    a.clauses := a.clauses + b.clauses;
    r := a;
  }
}
