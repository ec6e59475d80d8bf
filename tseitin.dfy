/**
 * The CNF compiler of src/tseitin.cpp: the literal pairs of `Lmap`, the
 * Tseitin units and their ordered set, the per-connective clause templates
 * and what they mean, the shared variable tables (`Vmap`, `Rmap`, `Lmap`)
 * with `find_or_assign_var`, `gen_tu`, `tu_set_to_cnf` and
 * `tseitin_transform`, and the direct recognition of formulas that are
 * already in CNF (`parse_into_literal`, `parse_into_clause`,
 * `parse_into_cnf`).
 */
module Tseitin {
  import opened Wrappers
  import opened Text
  import opened VarTables
  import opened Formulas
  import opened Cnf

  /** `struct lpair`: the positive and the negative literal of a variable, in that order. */
  datatype LPair = LPair(pos: Literal, neg: Literal)

  /** `lpair::flip`: the two literals swap places. */
  function Flip(p: LPair): (r: LPair)
    ensures r.pos == p.neg && r.neg == p.pos
  {
    LPair(p.neg, p.pos)
  }

  lemma FlipInvolution(p: LPair)
    ensures Flip(Flip(p)) == p
  {
  }

  /** The pair `Lmap` holds for variable `i`. */
  function PairOf(i: nat): LPair {
    LPair(Literal(i, true), Literal(i, false))
  }

  /** The two literals of the pair are the two polarities of one variable. */
  predicate Complementary(p: LPair) {
    p.pos.v == p.neg.v && p.pos.isTrue != p.neg.isTrue
  }

  /** The value the pair stands for: that of its `pos` literal. */
  function PairValue(val: nat -> bool, p: LPair): bool {
    LitValue(val, p.pos)
  }

  /** Flipping a pair negates what it stands for. */
  lemma FlipValue(val: nat -> bool, p: LPair)
    requires Complementary(p)
    ensures Complementary(Flip(p))
    ensures PairValue(val, Flip(p)) == !PairValue(val, p)
    ensures LitValue(val, p.neg) == !PairValue(val, p)
  {
  }

  // ---------------------------------------------------------------------
  // Tseitin units and their keys

  /**
   * `struct tseitin_unit`: `C` stands for `A op B`, or for `!A` when the
   * unit is unary (then `B` is a copy of `C`, and `op`, which the source
   * leaves uninitialised, is fixed to `And`).
   */
  datatype TUnit = TUnit(a: LPair, b: LPair, c: LPair, op: Connective, unary: bool)

  function UnaryUnit(a: LPair, c: LPair): TUnit {
    TUnit(a, c, c, And, true)
  }

  /** `static_cast<int>(op)`: the enumerator's position in `enum Connective`. */
  function OpCode(op: Connective): nat {
    match op
    case And => 0
    case Or => 1
    case Imply => 2
    case Equiv => 3
  }

  /** `tseitin_unit::print`: the three `pos` literals and the op code, separated by `;`. */
  function UnitKey(u: TUnit): string {
    LiteralText(u.a.pos) + (";" + (LiteralText(u.b.pos) + (";" + (LiteralText(u.c.pos) + (";" + Decimal(OpCode(u.op)))))))
  }

  /** One `;`-terminated field of a key splits off uniquely. */
  lemma KeyFieldSplit(x: Literal, s: string, y: Literal, t: string)
    requires LiteralText(x) + (";" + s) == LiteralText(y) + (";" + t)
    ensures x == y && s == t
  {
    LiteralTextShape(x);
    LiteralTextShape(y);
    SplitToken(LiteralText(x), ";" + s, LiteralText(y), ";" + t, LitChar);
    LiteralTextInjective(x, y);
    assert s == (";" + s)[1..] && t == (";" + t)[1..];
  }

  /**
   * Keys are injective in what they print: two units with one key agree on
   * their three `pos` literals and their op code. (The unary flag and the
   * `neg` literals are not part of the key.)
   */
  lemma UnitKeyInjective(u: TUnit, w: TUnit)
    requires UnitKey(u) == UnitKey(w)
    ensures u.a.pos == w.a.pos && u.b.pos == w.b.pos && u.c.pos == w.c.pos && u.op == w.op
  {
    var ku, kw := Decimal(OpCode(u.op)), Decimal(OpCode(w.op));
    var tu2, tw2 := LiteralText(u.c.pos) + (";" + ku), LiteralText(w.c.pos) + (";" + kw);
    var tu1, tw1 := LiteralText(u.b.pos) + (";" + tu2), LiteralText(w.b.pos) + (";" + tw2);
    KeyFieldSplit(u.a.pos, tu1, w.a.pos, tw1);
    KeyFieldSplit(u.b.pos, tu2, w.b.pos, tw2);
    KeyFieldSplit(u.c.pos, ku, w.c.pos, kw);
    DecimalInjective(OpCode(u.op), OpCode(w.op));
  }

  // ---------------------------------------------------------------------
  // `tu_set`: a std::set ordered by `tseitin_unit_compare`

  /** Strictly ascending keys: the iteration order of the set, one unit per key. */
  ghost predicate SortedKeys(us: seq<TUnit>) {
    forall i, j | 0 <= i < j < |us| :: Less(UnitKey(us[i]), UnitKey(us[j]))
  }

  /** The keys of the units of `us`. */
  function Keys(us: seq<TUnit>): set<string> {
    if us == [] then {} else {UnitKey(us[0])} + Keys(us[1..])
  }

  lemma {:induction false} KeyOf(us: seq<TUnit>, i: nat)
    requires i < |us|
    ensures UnitKey(us[i]) in Keys(us)
  {
    if i > 0 {
      KeyOf(us[1..], i - 1);
    }
  }

  lemma {:induction false} KeyIndex(us: seq<TUnit>, x: string) returns (i: nat)
    requires x in Keys(us)
    ensures i < |us| && UnitKey(us[i]) == x
  {
    if x == UnitKey(us[0]) {
      i := 0;
    } else {
      var j := KeyIndex(us[1..], x);
      i := j + 1;
    }
  }

  /** Every key in `ks` is above `k`. */
  ghost predicate Above(k: string, ks: set<string>) {
    forall x | x in ks :: Less(k, x)
  }

  lemma KeysCons(u: TUnit, us: seq<TUnit>)
    ensures Keys([u] + us) == {UnitKey(u)} + Keys(us)
  {
    assert ([u] + us)[1..] == us;
  }

  lemma SortedTail(us: seq<TUnit>)
    requires SortedKeys(us) && us != []
    ensures SortedKeys(us[1..]) && Above(UnitKey(us[0]), Keys(us[1..]))
    ensures us == [us[0]] + us[1..] && Keys(us) == {UnitKey(us[0])} + Keys(us[1..])
  {
    var t := us[1..];
    assert forall i | 0 <= i < |t| :: t[i] == us[i + 1];
    forall x | x in Keys(t) ensures Less(UnitKey(us[0]), x) {
      var j := KeyIndex(t, x);
      assert us[j + 1] == t[j];
    }
    assert us == [us[0]] + t;
  }

  lemma SortedCons(u: TUnit, us: seq<TUnit>)
    requires SortedKeys(us) && Above(UnitKey(u), Keys(us))
    ensures SortedKeys([u] + us)
  {
    var r := [u] + us;
    forall i, j | 0 <= i < j < |r| ensures Less(UnitKey(r[i]), UnitKey(r[j])) {
      assert r[j] == us[j - 1];
      if i > 0 { assert r[i] == us[i - 1]; }
      else { KeyOf(us, j - 1); }
    }
  }

  /**
   * `tus->emplace(u)`: `u` goes in at its place in key order, unless a unit
   * with an equal key is already present, in which case nothing changes.
   */
  function InsertUnit(us: seq<TUnit>, u: TUnit): seq<TUnit> {
    if us == [] then [u]
    else if Less(UnitKey(u), UnitKey(us[0])) then [u] + us
    else if UnitKey(u) == UnitKey(us[0]) then us
    else [us[0]] + InsertUnit(us[1..], u)
  }

  /** A key below the least key of a sorted sequence is below all of them, so it is not one. */
  lemma BelowFirst(k: string, us: seq<TUnit>)
    requires SortedKeys(us) && us != [] && Less(k, UnitKey(us[0]))
    ensures Above(k, Keys(us)) && k !in Keys(us)
  {
    SortedTail(us);
    forall x | x in Keys(us) ensures Less(k, x) {
      if x != UnitKey(us[0]) { LessTransitive(k, UnitKey(us[0]), x); }
    }
    if k in Keys(us) { LessIrreflexive(k); }
  }

  /** Insertion adds exactly the new key. */
  lemma {:induction false} InsertUnitKeys(us: seq<TUnit>, u: TUnit)
    ensures Keys(InsertUnit(us, u)) == Keys(us) + {UnitKey(u)}
    decreases |us|
  {
    if us == [] {
      assert [u] == [u] + [];
      KeysCons(u, []);
    } else {
      var k, t := UnitKey(u), us[1..];
      assert us == [us[0]] + t;
      KeysCons(us[0], t);
      if Less(k, UnitKey(us[0])) {
        KeysCons(u, us);
        assert InsertUnit(us, u) == [u] + us;
      } else if k != UnitKey(us[0]) {
        var r := InsertUnit(t, u);
        InsertUnitKeys(t, u);
        KeysCons(us[0], r);
        assert InsertUnit(us, u) == [us[0]] + r;
        var kr, kt := Keys(r), Keys(t);
        assert Keys(InsertUnit(us, u)) == {UnitKey(us[0])} + kr;
        assert kr == kt + {k};
      } else {
        assert InsertUnit(us, u) == us;
      }
    }
  }

  /** Insertion keeps the keys strictly ascending. */
  lemma {:induction false} InsertUnitSorted(us: seq<TUnit>, u: TUnit)
    requires SortedKeys(us)
    ensures SortedKeys(InsertUnit(us, u))
    decreases |us|
  {
    if us == [] {
    } else {
      var k, k0 := UnitKey(u), UnitKey(us[0]);
      SortedTail(us);
      if Less(k, k0) {
        BelowFirst(k, us);
        SortedCons(u, us);
      } else if k != k0 {
        LessTrichotomy(k, k0);
        var t := InsertUnit(us[1..], u);
        InsertUnitSorted(us[1..], u);
        InsertUnitKeys(us[1..], u);
        SortedCons(us[0], t);
      }
    }
  }

  /** A unit whose key is already present leaves the set as it was; otherwise it is added once. */
  lemma {:induction false} InsertUnitContents(us: seq<TUnit>, u: TUnit)
    requires SortedKeys(us)
    ensures UnitKey(u) in Keys(us) ==> InsertUnit(us, u) == us
    ensures UnitKey(u) !in Keys(us) ==> multiset(InsertUnit(us, u)) == multiset(us) + multiset{u}
    decreases |us|
  {
    if us != [] {
      var k, k0 := UnitKey(u), UnitKey(us[0]);
      SortedTail(us);
      if Less(k, k0) {
        BelowFirst(k, us);
      } else if k != k0 {
        InsertUnitContents(us[1..], u);
        assert InsertUnit(us, u) == [us[0]] + InsertUnit(us[1..], u);
      }
    }
  }

  /** The `tu_set` that `tseitin_transform` allocates and `gen_tu` fills. */
  class UnitSet {
    var units: seq<TUnit>

    constructor ()
      ensures units == []
    {
      units := [];
    }

    /** `emplace`. */
    method Emplace(u: TUnit)
      modifies this
      ensures units == InsertUnit(old(units), u)
      ensures SortedKeys(old(units)) ==> SortedKeys(units)
    {
      if SortedKeys(units) { InsertUnitSorted(units, u); }
      units := InsertUnit(units, u);
    }
  }

  // ---------------------------------------------------------------------
  // Clause templates

  /** `tseitin_basic_land`: `C <-> (A & B)` as `(!A | !B | C) & (A | !C) & (B | !C)`. */
  function Land(a: LPair, b: LPair, c: LPair): seq<Clause> {
    [[a.neg, b.neg, c.pos], [a.pos, c.neg], [b.pos, c.neg]]
  }

  /** `tseitin_basic_lor`: the `Land` template on the three flipped pairs. */
  function Lor(a: LPair, b: LPair, c: LPair): seq<Clause> {
    Land(Flip(a), Flip(b), Flip(c))
  }

  /** `tseitin_basic_not`: `C <-> !A` as `(!A | !C) & (A | C)`. */
  function Lnot(a: LPair, c: LPair): seq<Clause> {
    [[a.neg, c.neg], [a.pos, c.pos]]
  }

  /** `tseitin_basic_lequiv`: `(!A | B) & (A | !B) & (!B | C) & (B | !C)`. */
  function Lequiv(a: LPair, b: LPair, c: LPair): seq<Clause> {
    [[a.neg, b.pos], [a.pos, b.neg], [b.neg, c.pos], [b.pos, c.neg]]
  }

  lemma Clause2(val: nat -> bool, x: Literal, y: Literal)
    ensures ClauseSat(val, [x, y]) <==> LitValue(val, x) || LitValue(val, y)
  {
    if LitValue(val, x) { assert [x, y][0] == x; }
    if LitValue(val, y) { assert [x, y][1] == y; }
  }

  lemma Clause3(val: nat -> bool, x: Literal, y: Literal, z: Literal)
    ensures ClauseSat(val, [x, y, z]) <==> LitValue(val, x) || LitValue(val, y) || LitValue(val, z)
  {
    if LitValue(val, x) { assert [x, y, z][0] == x; }
    if LitValue(val, y) { assert [x, y, z][1] == y; }
    if LitValue(val, z) { assert [x, y, z][2] == z; }
  }

  lemma Cnf2(val: nat -> bool, c1: Clause, c2: Clause)
    ensures CnfSat(val, [c1, c2]) <==> ClauseSat(val, c1) && ClauseSat(val, c2)
  {
    assert [c1, c2][0] == c1 && [c1, c2][1] == c2;
  }

  lemma Cnf3(val: nat -> bool, c1: Clause, c2: Clause, c3: Clause)
    ensures CnfSat(val, [c1, c2, c3]) <==> ClauseSat(val, c1) && ClauseSat(val, c2) && ClauseSat(val, c3)
  {
    assert [c1, c2, c3][0] == c1 && [c1, c2, c3][1] == c2 && [c1, c2, c3][2] == c3;
  }

  lemma Cnf4(val: nat -> bool, c1: Clause, c2: Clause, c3: Clause, c4: Clause)
    ensures CnfSat(val, [c1, c2, c3, c4]) <==> ClauseSat(val, c1) && ClauseSat(val, c2) && ClauseSat(val, c3) && ClauseSat(val, c4)
  {
    var cs := [c1, c2, c3, c4];
    assert cs[0] == c1 && cs[1] == c2 && cs[2] == c3 && cs[3] == c4;
  }

  /** The `Land` clauses hold exactly when `C` is the conjunction of `A` and `B`. */
  lemma LandMeaning(val: nat -> bool, a: LPair, b: LPair, c: LPair)
    requires Complementary(a) && Complementary(b) && Complementary(c)
    ensures CnfSat(val, Land(a, b, c)) <==>
            PairValue(val, c) == (PairValue(val, a) && PairValue(val, b))
  {
    Clause3(val, a.neg, b.neg, c.pos);
    Clause2(val, a.pos, c.neg);
    Clause2(val, b.pos, c.neg);
    Cnf3(val, [a.neg, b.neg, c.pos], [a.pos, c.neg], [b.pos, c.neg]);
    FlipValue(val, a);
    FlipValue(val, b);
    FlipValue(val, c);
  }

  /** The `Lor` clauses hold exactly when `C` is the disjunction of `A` and `B`. */
  lemma LorMeaning(val: nat -> bool, a: LPair, b: LPair, c: LPair)
    requires Complementary(a) && Complementary(b) && Complementary(c)
    ensures CnfSat(val, Lor(a, b, c)) <==>
            PairValue(val, c) == (PairValue(val, a) || PairValue(val, b))
  {
    FlipValue(val, a);
    FlipValue(val, b);
    FlipValue(val, c);
    LandMeaning(val, Flip(a), Flip(b), Flip(c));
  }

  /** The `Lnot` clauses hold exactly when `C` is the negation of `A`. */
  lemma LnotMeaning(val: nat -> bool, a: LPair, c: LPair)
    requires Complementary(a) && Complementary(c)
    ensures CnfSat(val, Lnot(a, c)) <==> PairValue(val, c) == !PairValue(val, a)
  {
    Clause2(val, a.neg, c.neg);
    Clause2(val, a.pos, c.pos);
    Cnf2(val, [a.neg, c.neg], [a.pos, c.pos]);
    FlipValue(val, a);
    FlipValue(val, c);
  }

  /**
   * The `Lequiv` clauses hold exactly when `A`, `B` and `C` all have one
   * value: they say `A <-> B` and `B <-> C`, not `C <-> (A <-> B)`.
   */
  lemma LequivMeaning(val: nat -> bool, a: LPair, b: LPair, c: LPair)
    requires Complementary(a) && Complementary(b) && Complementary(c)
    ensures CnfSat(val, Lequiv(a, b, c)) <==>
            PairValue(val, a) == PairValue(val, b) && PairValue(val, b) == PairValue(val, c)
  {
    Clause2(val, a.neg, b.pos);
    Clause2(val, a.pos, b.neg);
    Clause2(val, b.neg, c.pos);
    Clause2(val, b.pos, c.neg);
    Cnf4(val, [a.neg, b.pos], [a.pos, b.neg], [b.neg, c.pos], [b.pos, c.neg]);
    FlipValue(val, a);
    FlipValue(val, b);
    FlipValue(val, c);
  }

  /**
   * The `Lequiv` clauses are not the Tseitin definition of `C <-> (A <-> B)`:
   * with every variable false, `A <-> B` is true and `C` is false, yet every
   * clause holds.
   */
  lemma LequivIsNotIff()
    ensures var val := (i: nat) => false;
            var a, b, c := PairOf(0), PairOf(1), PairOf(2);
            CnfSat(val, Lequiv(a, b, c)) && PairValue(val, c) != (PairValue(val, a) == PairValue(val, b))
  {
    var val := (i: nat) => false;
    LequivMeaning(val, PairOf(0), PairOf(1), PairOf(2));
  }

  // ---------------------------------------------------------------------
  // From units to clauses

  /** `tu_to_cnf`: the template for the unit's connective; `->` is `|` with `A` flipped. */
  function TuToCnf(u: TUnit): seq<Clause> {
    if u.unary then Lnot(u.a, u.c)
    else
      match u.op
      case And => Land(u.a, u.b, u.c)
      case Or => Lor(u.a, u.b, u.c)
      case Imply => Lor(Flip(u.a), u.b, u.c)
      case Equiv => Lequiv(u.a, u.b, u.c)
  }

  /**
   * What a unit's clauses pin down: `C = !A` for a negation, `C = A op B`
   * for `&`, `|` and `->`, and `A = B = C` for `<->`.
   */
  predicate Means(val: nat -> bool, u: TUnit) {
    var a, b, c := PairValue(val, u.a), PairValue(val, u.b), PairValue(val, u.c);
    if u.unary then c == !a
    else if u.op == Equiv then a == b && b == c
    else c == Apply(u.op, a, b)
  }

  predicate PairsComplementary(u: TUnit) {
    Complementary(u.a) && Complementary(u.b) && Complementary(u.c)
  }

  /** A unit's clauses hold exactly when its meaning does. */
  lemma TuToCnfMeaning(val: nat -> bool, u: TUnit)
    requires PairsComplementary(u)
    ensures CnfSat(val, TuToCnf(u)) <==> Means(val, u)
  {
    if u.unary {
      LnotMeaning(val, u.a, u.c);
    } else {
      match u.op
      case And => LandMeaning(val, u.a, u.b, u.c);
      case Or => LorMeaning(val, u.a, u.b, u.c);
      case Imply =>
        FlipValue(val, u.a);
        LorMeaning(val, Flip(u.a), u.b, u.c);
      case Equiv => LequivMeaning(val, u.a, u.b, u.c);
    }
  }

  /** `tu_set_to_cnf`: the clauses of the units, in the set's order. */
  function UnitsCnf(us: seq<TUnit>): seq<Clause> {
    if us == [] then [] else TuToCnf(us[0]) + UnitsCnf(us[1..])
  }

  lemma {:induction false} UnitsCnfSnoc(us: seq<TUnit>, u: TUnit)
    ensures UnitsCnf(us + [u]) == UnitsCnf(us) + TuToCnf(u)
    decreases |us|
  {
    if us == [] {
      assert [u][1..] == [];
      assert UnitsCnf([u]) == TuToCnf(u) + UnitsCnf([]);
    } else {
      assert (us + [u])[1..] == us[1..] + [u];
      UnitsCnfSnoc(us[1..], u);
    }
  }

  /** The clauses of a unit set hold exactly when every unit's meaning does. */
  lemma {:induction false} UnitsCnfMeaning(val: nat -> bool, us: seq<TUnit>)
    requires forall w | w in us :: PairsComplementary(w)
    ensures CnfSat(val, UnitsCnf(us)) <==> forall w | w in us :: Means(val, w)
    decreases |us|
  {
    if us != [] {
      var t := us[1..];
      assert forall w | w in t :: w in us;
      UnitsCnfMeaning(val, t);
      TuToCnfMeaning(val, us[0]);
      CnfSatAppend(val, TuToCnf(us[0]), UnitsCnf(t));
      assert forall w | w in us :: w == us[0] || w in t;
    }
  }

  /** `tu_set_to_cnf`: merges each unit's clauses into one `CNF`, in iteration order. */
  method TuSetToCnf(tus: UnitSet) returns (r: CNF)
    ensures fresh(r) && r.clauses == UnitsCnf(tus.units)
  {
    r := new CNF([]);
    var units := tus.units;
    for i := 0 to |units|
      invariant fresh(r) && r.clauses == UnitsCnf(units[..i])
    {
      var c := new CNF(TuToCnf(units[i]));
      assert units[..i + 1] == units[..i] + [units[i]];
      UnitsCnfSnoc(units[..i], units[i]);
      r := MergeCnf(r, c);
    }
    assert units[..|units|] == units;
  }

  // ---------------------------------------------------------------------
  // Units built from `Lmap` pairs

  /**
   * A unit whose pairs come from `Lmap`, whose `B` equals `C` exactly when it
   * is unary, and whose op is `And` when it is unary: what `gen_tu` emplaces.
   */
  predicate Tidy(u: TUnit) {
    && u.a == PairOf(u.a.pos.v) && u.b == PairOf(u.b.pos.v) && u.c == PairOf(u.c.pos.v)
    && u.unary == (u.b == u.c)
    && (u.unary ==> u.op == And)
  }

  /** Among tidy units the key is injective, so the set never drops a unit it was given. */
  lemma TidyKey(u: TUnit, w: TUnit)
    requires Tidy(u) && Tidy(w) && UnitKey(u) == UnitKey(w)
    ensures u == w
  {
    UnitKeyInjective(u, w);
  }

  /** Emplacing a tidy unit into tidy units: the result holds exactly the old units and the new one. */
  lemma {:induction false} InsertUnitMembers(us: seq<TUnit>, u: TUnit)
    requires Tidy(u) && forall w | w in us :: Tidy(w)
    ensures forall w :: w in InsertUnit(us, u) <==> w in us || w == u
    decreases |us|
  {
    if us != [] {
      var t := us[1..];
      assert us == [us[0]] + t;
      if Less(UnitKey(u), UnitKey(us[0])) {
      } else if UnitKey(u) == UnitKey(us[0]) {
        TidyKey(u, us[0]);
      } else {
        assert forall w | w in t :: w in us;
        InsertUnitMembers(t, u);
      }
    }
  }

  // ---------------------------------------------------------------------
  // The shared tables and `find_or_assign_var`

  /**
   * Every variable of `f` has an id of the table, and the table gives that
   * id the variable's own name: how the parser leaves its output.
   */
  ghost predicate Named(f: Formula, n: Names): (b: bool)
    ensures b ==> HoleFree(f) && VarsBelow(f, |n.rmap|)
  {
    match f
    case Hole => false
    case Invalid(_, _) => true
    case Variable(id, name) => IsVarName(name) && id < |n.rmap| && n.rmap[id] == name
    case Negated(g) => Named(g, n)
    case Binary(l, r, _) => Named(l, n) && Named(r, n)
  }

  lemma {:induction false} NamedExtends(f: Formula, a: Names, b: Names)
    requires Named(f, a) && b.Extends(a)
    ensures Named(f, b)
  {
    match f
    case Invalid(_, _) =>
    case Variable(_, _) => assert a.rmap <= b.rmap;
    case Negated(g) => NamedExtends(g, a, b);
    case Binary(l, r, _) =>
      NamedExtends(l, a, b);
      NamedExtends(r, a, b);
  }

  lemma {:induction false} VarsBelowGrow(f: Formula, a: nat, b: nat)
    requires VarsBelow(f, a) && a <= b
    ensures VarsBelow(f, b)
  {
    match f
    case Hole =>
    case Invalid(_, _) =>
    case Variable(_, _) =>
    case Negated(g) => VarsBelowGrow(g, a, b);
    case Binary(l, r, _) =>
      VarsBelowGrow(l, a, b);
      VarsBelowGrow(r, a, b);
  }

  /** What `find_or_assign_var` may be asked: a node with no null child whose variable id, if any, is in `Lmap`. */
  predicate Lookable(n: Names, f: Formula) {
    HoleFree(f) && (f.Variable? ==> f.id < |n.rmap|)
  }

  /**
   * `find_or_assign_var`: a variable is its own pair; any other node is named
   * by its print, which is interned as a fresh variable the first time it is
   * seen.
   */
  function Lookup(n: Names, f: Formula): (r: (Names, LPair))
    requires n.Valid() && Lookable(n, f)
    ensures r.0.Valid() && r.0.Extends(n)
    ensures r.1 == PairOf(r.1.pos.v) && r.1.pos.v < |r.0.rmap|
    ensures f.Variable? ==> r.0 == n && r.1.pos.v == f.id
    ensures !f.Variable? ==> Print(f) in r.0.vmap && r.0.vmap[Print(f)] == r.1.pos.v
    ensures !f.Variable? && Print(f) in n.vmap ==> r.0 == n
    ensures !f.Variable? && Print(f) !in n.vmap ==> r.1.pos.v == |n.rmap| && r.0.rmap == n.rmap + [Print(f)]
    ensures Named(f, n) ==> r.0.rmap[r.1.pos.v] == Print(f)
  {
    if f.Variable? then (n, PairOf(f.id))
    else
      var (m, id) := Interned(n, Print(f));
      (m, PairOf(id))
  }

  /** Once a node has been looked up, a later table, however extended, gives it the same pair and no new entry. */
  lemma LookupStable(n: Names, f: Formula, m: Names)
    requires n.Valid() && Lookable(n, f)
    requires m.Valid() && m.Extends(Lookup(n, f).0)
    ensures Lookable(m, f) && Lookup(m, f) == (m, Lookup(n, f).1)
  {
    var n1 := Lookup(n, f).0;
    assert n1.rmap <= m.rmap;
  }

  /** Under a table that names `f`'s variables, two nodes share a pair exactly when they print alike. */
  lemma LookupShared(n: Names, f: Formula, g: Formula)
    requires n.Valid() && Named(f, n) && Named(g, n)
    requires Lookup(n, f).0 == n && Lookup(n, g).0 == n
    ensures Lookup(n, f).1 == Lookup(n, g).1 <==> Print(f) == Print(g)
  {
    var a, b := Lookup(n, f).1.pos.v, Lookup(n, g).1.pos.v;
    assert n.rmap[a] == Print(f) && n.rmap[b] == Print(g);
    if Print(f) == Print(g) {
      assert n.vmap[n.rmap[a]] == a && n.vmap[n.rmap[b]] == b;
    }
  }

  // ---------------------------------------------------------------------
  // `gen_tu`

  /**
   * `gen_tu`, with the table and the unit set threaded through: a binary
   * node first generates for its left operand, then looks up its left
   * operand, its right operand and itself (in that order) and emplaces the
   * unit, then generates for its right operand; a negation looks up its
   * operand and itself, emplaces a unary unit, then generates for its
   * operand; variables and `Invalid` nodes add nothing.
   */
  function GenSpec(n: Names, us: seq<TUnit>, f: Formula): (r: (Names, seq<TUnit>))
    requires n.Valid() && HoleFree(f) && VarsBelow(f, |n.rmap|)
    ensures r.0.Valid() && r.0.Extends(n)
    decreases f
  {
    match f
    case Invalid(_, _) => (n, us)
    case Variable(_, _) => (n, us)
    case Negated(g) =>
      assert VarsBelow(g, |n.rmap|);
      var (n1, a) := Lookup(n, g);
      var (n2, c) := Lookup(n1, f);
      VarsBelowGrow(g, |n.rmap|, |n2.rmap|);
      var r := GenSpec(n2, InsertUnit(us, UnaryUnit(a, c)), g);
      ExtendsTransitive(n, n1, n2);
      ExtendsTransitive(n, n2, r.0);
      r
    case Binary(l, rt, op) =>
      var (n1, us1) := GenSpec(n, us, l);
      VarsBelowGrow(l, |n.rmap|, |n1.rmap|);
      var (n2, a) := Lookup(n1, l);
      VarsBelowGrow(rt, |n.rmap|, |n2.rmap|);
      var (n3, b) := Lookup(n2, rt);
      var (n4, c) := Lookup(n3, f);
      VarsBelowGrow(rt, |n2.rmap|, |n4.rmap|);
      var r := GenSpec(n4, InsertUnit(us1, TUnit(a, b, c, op, false)), rt);
      ExtendsTransitive(n, n1, n2);
      ExtendsTransitive(n, n2, n3);
      ExtendsTransitive(n, n3, n4);
      ExtendsTransitive(n, n4, r.0);
      r
  }

  /** `tseitin_transform`: the units' clauses, then the unit clause asserting the whole formula's pair. */
  function TransformSpec(n: Names, f: Formula): (r: (Names, seq<Clause>))
    requires n.Valid() && HoleFree(f) && VarsBelow(f, |n.rmap|)
    ensures r.0.Valid() && r.0.Extends(n)
  {
    var (m, us) := GenSpec(n, [], f);
    VarsBelowGrow(f, |n.rmap|, |m.rmap|);
    var (m2, root) := Lookup(m, f);
    ExtendsTransitive(n, m, m2);
    (m2, UnitsCnf(us) + [[root.pos]])
  }

  // ---------------------------------------------------------------------
  // The compiler's mutable state

  /**
   * The CNF compiler's globals: `Vmap` and `Rmap`, which it shares with the
   * parser, and `Lmap`, which holds the literal pair of every id.
   */
  class Compiler {
    const table: VarTable
    var lmap: seq<LPair>

    /** `Lmap` has one entry per id of `Rmap`, and entry `i` is the pair of variable `i`. */
    ghost predicate Valid()
      reads this, table
    {
      && table.Value().Valid()
      && |lmap| == |table.rmap|
      && forall i | 0 <= i < |lmap| :: lmap[i] == PairOf(i)
    }

    /** `tseitin_init`: adopts the parser's tables and builds a pair for every id they hold. */
    constructor (t: VarTable)
      requires t.Value().Valid()
      ensures table == t && Valid()
      ensures t.Value() == old(t.Value())
    {
      var l: seq<LPair> := [];
      for i := 0 to |t.rmap|
        invariant |l| == i && forall j | 0 <= j < i :: l[j] == PairOf(j)
      {
        l := l + [PairOf(i)];
      }
      table := t;
      lmap := l;
    }

    /** `find_or_assign_var`. */
    method FindOrAssignVar(f: Formula) returns (p: LPair)
      requires Valid() && Lookable(table.Value(), f)
      modifies this, table
      ensures Valid() && (table.Value(), p) == Lookup(old(table.Value()), f)
    {
      if f.Variable? {
        p := lmap[f.id];
        return;
      }
      var name := Print(f);
      var known := name in table.vmap;
      var id := table.Intern(name);
      if !known {
        var lp := PairOf(id);
        lmap := lmap + [lp];
        p := lp;
      } else {
        p := lmap[id];
      }
    }

    /** `gen_tu`. */
    method GenTu(f: Formula, tus: UnitSet)
      requires Valid() && HoleFree(f) && VarsBelow(f, |table.rmap|)
      modifies this, table, tus
      ensures Valid() && (table.Value(), tus.units) == GenSpec(old(table.Value()), old(tus.units), f)
      decreases f
    {
      match f
      case Invalid(_, _) =>
      case Variable(_, _) =>
      case Negated(g) =>
        assert VarsBelow(g, |table.rmap|);
        var a := FindOrAssignVar(g);
        var c := FindOrAssignVar(f);
        VarsBelowGrow(g, |old(table.rmap)|, |table.rmap|);
        tus.Emplace(UnaryUnit(a, c));
        GenTu(g, tus);
      case Binary(l, r, op) =>
        GenTu(l, tus);
        VarsBelowGrow(l, |old(table.rmap)|, |table.rmap|);
        VarsBelowGrow(r, |old(table.rmap)|, |table.rmap|);
        var a := FindOrAssignVar(l);
        var b := FindOrAssignVar(r);
        var c := FindOrAssignVar(f);
        VarsBelowGrow(r, |old(table.rmap)|, |table.rmap|);
        tus.Emplace(TUnit(a, b, c, op, false));
        GenTu(r, tus);
    }

    /** `tseitin_transform`. */
    method Transform(f: Formula) returns (r: CNF)
      requires Valid() && HoleFree(f) && VarsBelow(f, |table.rmap|)
      modifies this, table
      ensures Valid() && fresh(r) && (table.Value(), r.clauses) == TransformSpec(old(table.Value()), f)
    {
      var tus := new UnitSet();
      GenTu(f, tus);
      r := TuSetToCnf(tus);
      VarsBelowGrow(f, |old(table.rmap)|, |table.rmap|);
      var root := FindOrAssignVar(f);
      r.clauses := r.clauses + [[root.pos]];
    }
  }

  // ---------------------------------------------------------------------
  // What `gen_tu` leaves behind

  predicate Compound(f: Formula) {
    f.Negated? || f.Binary?
  }

  /** No `<->` anywhere in the formula. */
  predicate NoEquiv(f: Formula) {
    match f
    case Negated(g) => NoEquiv(g)
    case Binary(l, r, op) => op != Equiv && NoEquiv(l) && NoEquiv(r)
    case _ => true
  }

  lemma {:induction false} SubformulasClosed(f: Formula, g: Formula)
    requires g in Subformulas(f)
    ensures g.Negated? ==> g.f in Subformulas(f)
    ensures g.Binary? ==> g.l in Subformulas(f) && g.r in Subformulas(f)
    ensures Subformulas(g) <= Subformulas(f)
  {
    if g != f {
      match f
      case Negated(h) => SubformulasClosed(h, g);
      case Binary(l, r, _) =>
        if g in Subformulas(l) { SubformulasClosed(l, g); } else { SubformulasClosed(r, g); }
    }
  }

  lemma {:induction false} NamedSub(f: Formula, g: Formula, n: Names)
    requires Named(f, n) && g in Subformulas(f)
    ensures Named(g, n)
  {
    if g != f {
      match f
      case Negated(h) => NamedSub(h, g, n);
      case Binary(l, r, _) =>
        if g in Subformulas(l) { NamedSub(l, g, n); } else { NamedSub(r, g, n); }
    }
  }

  /** The unit `gen_tu` emplaces for a compound node, with the pairs the table `m` gives its nodes. */
  function UnitFor(m: Names, g: Formula): TUnit
    requires m.Valid() && Named(g, m) && Compound(g)
  {
    if g.Negated? then UnaryUnit(Lookup(m, g.f).1, Lookup(m, g).1)
    else TUnit(Lookup(m, g.l).1, Lookup(m, g.r).1, Lookup(m, g).1, g.op, false)
  }

  /** Every node of `f` already has its pair in `m`: looking it up changes nothing. */
  ghost predicate Present(m: Names, f: Formula)
    requires m.Valid()
  {
    forall g | g in Subformulas(f) && Lookable(m, g) :: Lookup(m, g).0 == m
  }

  /** The units `vs` contain the unit of every compound node of `f`. */
  ghost predicate Covers(m: Names, vs: seq<TUnit>, f: Formula)
    requires m.Valid()
  {
    forall g | g in Subformulas(f) && Compound(g) && Named(g, m) :: UnitFor(m, g) in vs
  }

  /** The units `vs` beyond `us` are all units of compound nodes of `f`. */
  ghost predicate OnlyUnitsOf(m: Names, us: seq<TUnit>, vs: seq<TUnit>, f: Formula)
    requires m.Valid()
  {
    forall w | w in vs :: w in us || exists g | g in Subformulas(f) :: Compound(g) && Named(g, m) && w == UnitFor(m, g)
  }

  /** The unit of a node whose pairs are all in `m1` is the same in every extension of `m1`. */
  lemma UnitForStable(m1: Names, m: Names, g: Formula)
    requires m1.Valid() && m.Valid() && m.Extends(m1)
    requires Named(g, m1) && Compound(g) && Lookup(m1, g).0 == m1
    requires g.Negated? ==> Lookup(m1, g.f).0 == m1
    requires g.Binary? ==> Lookup(m1, g.l).0 == m1 && Lookup(m1, g.r).0 == m1
    ensures Named(g, m) && UnitFor(m, g) == UnitFor(m1, g)
  {
    NamedExtends(g, m1, m);
    LookupStable(m1, g, m);
    if g.Negated? {
      LookupStable(m1, g.f, m);
    } else {
      LookupStable(m1, g.l, m);
      LookupStable(m1, g.r, m);
    }
  }

  lemma PresentStable(m1: Names, m: Names, f: Formula)
    requires m1.Valid() && m.Valid() && m.Extends(m1)
    requires Named(f, m1) && Present(m1, f)
    ensures Present(m, f)
  {
    forall g | g in Subformulas(f) && Lookable(m, g) ensures Lookup(m, g).0 == m {
      NamedSub(f, g, m1);
      LookupStable(m1, g, m);
    }
  }

  /** Coverage and its converse carry over to an extended table and a larger unit set. */
  lemma CoversStable(m1: Names, m: Names, us: seq<TUnit>, vs1: seq<TUnit>, vs: seq<TUnit>, f: Formula)
    requires m1.Valid() && m.Valid() && m.Extends(m1)
    requires Named(f, m1) && Present(m1, f)
    requires Covers(m1, vs1, f) && OnlyUnitsOf(m1, us, vs1, f)
    requires forall w | w in vs1 :: w in vs
    ensures Covers(m, vs, f) && OnlyUnitsOf(m, us, vs1, f)
  {
    forall g | g in Subformulas(f) && Compound(g) && Named(g, m1)
      ensures Named(g, m) && UnitFor(m, g) == UnitFor(m1, g)
    {
      SubformulasClosed(f, g);
      NamedSub(f, g, m1);
      if g.Negated? { NamedSub(f, g.f, m1); } else { NamedSub(f, g.l, m1); NamedSub(f, g.r, m1); }
      UnitForStable(m1, m, g);
    }
    forall g | g in Subformulas(f) && Compound(g) && Named(g, m) ensures UnitFor(m, g) in vs {
      NamedSub(f, g, m1);
    }
    forall w | w in vs1 && w !in us
      ensures exists g | g in Subformulas(f) :: Compound(g) && Named(g, m) && w == UnitFor(m, g)
    {
      var g :| g in Subformulas(f) && Compound(g) && Named(g, m1) && w == UnitFor(m1, g);
      assert Named(g, m) && w == UnitFor(m, g);
    }
  }

  /**
   * What generation for `f` from units `us` leaves in table `m` and units
   * `vs`: only tidy units, the old units kept, every node of `f` named, the
   * unit of every compound node present, and nothing else added.
   */
  ghost predicate Generated(us: seq<TUnit>, f: Formula, m: Names, vs: seq<TUnit>)
    requires m.Valid()
  {
    && (forall w | w in vs :: Tidy(w))
    && (forall w | w in us :: w in vs)
    && Named(f, m) && Present(m, f) && Covers(m, vs, f) && OnlyUnitsOf(m, us, vs, f)
  }

  lemma {:induction false} GenUnits(n: Names, us: seq<TUnit>, f: Formula)
    requires n.Valid() && Named(f, n) && Complete(f) && forall w | w in us :: Tidy(w)
    ensures Generated(us, f, GenSpec(n, us, f).0, GenSpec(n, us, f).1)
    decreases f, 2
  {
    match f
    case Variable(_, _) => assert Subformulas(f) == {f};
    case Negated(_) => GenUnitsNegated(n, us, f);
    case Binary(_, _, _) => GenUnitsBinary(n, us, f);
  }

  /** Generation for a negation, given what the generation for its operand produced. */
  lemma GeneratedNegated(us: seq<TUnit>, u: TUnit, us1: seq<TUnit>, f: Formula, m: Names, vs: seq<TUnit>)
    requires m.Valid() && f.Negated? && Named(f, m) && Complete(f)
    requires Generated(us1, f.f, m, vs)
    requires Lookup(m, f).0 == m && u == UnitFor(m, f)
    requires forall w :: w in us1 <==> w in us || w == u
    ensures Generated(us, f, m, vs)
  {
    assert Subformulas(f) == {f} + Subformulas(f.f);
    assert Present(m, f);
    assert Covers(m, vs, f);
    forall w | w in vs && w !in us
      ensures exists g | g in Subformulas(f) :: Compound(g) && Named(g, m) && w == UnitFor(m, g)
    {
      if w == u {
        assert f in Subformulas(f);
      } else {
        var g :| g in Subformulas(f.f) && Compound(g) && Named(g, m) && w == UnitFor(m, g);
        assert g in Subformulas(f);
      }
    }
  }

  lemma {:induction false} GenUnitsNegated(n: Names, us: seq<TUnit>, f: Formula)
    requires f.Negated?
    requires n.Valid() && Named(f, n) && Complete(f) && forall w | w in us :: Tidy(w)
    ensures Generated(us, f, GenSpec(n, us, f).0, GenSpec(n, us, f).1)
    decreases f, 1
  {
    var g := f.f;
    var (n1, a) := Lookup(n, g);
    var (n2, c) := Lookup(n1, f);
    var u := UnaryUnit(a, c);
    var us1 := InsertUnit(us, u);
    InsertUnitMembers(us, u);
    NamedExtends(g, n, n2);
    VarsBelowGrow(g, |n.rmap|, |n2.rmap|);
    var (m, vs) := GenSpec(n2, us1, g);
    assert (m, vs) == GenSpec(n, us, f);
    GenUnits(n2, us1, g);
    ExtendsTransitive(n1, n2, m);
    LookupStable(n, g, m);
    LookupStable(n1, f, m);
    NamedExtends(f, n, m);
    GeneratedNegated(us, u, us1, f, m, vs);
  }

  /** Generation for a binary node, given what the generations for its two operands produced. */
  lemma GeneratedBinary(us: seq<TUnit>, us1: seq<TUnit>, u: TUnit, us2: seq<TUnit>, f: Formula, m: Names, vs: seq<TUnit>)
    requires m.Valid() && f.Binary? && Named(f, m) && Complete(f)
    requires (forall w | w in us :: w in us1) && Present(m, f.l) && Covers(m, vs, f.l) && OnlyUnitsOf(m, us, us1, f.l)
    requires Generated(us2, f.r, m, vs)
    requires Lookup(m, f).0 == m && u == UnitFor(m, f)
    requires forall w :: w in us2 <==> w in us1 || w == u
    ensures Generated(us, f, m, vs)
  {
    assert Subformulas(f) == {f} + Subformulas(f.l) + Subformulas(f.r);
    assert Present(m, f);
    assert Covers(m, vs, f);
    forall w | w in vs && w !in us
      ensures exists g | g in Subformulas(f) :: Compound(g) && Named(g, m) && w == UnitFor(m, g)
    {
      if w == u {
        assert f in Subformulas(f);
      } else if w in us1 {
        var g :| g in Subformulas(f.l) && Compound(g) && Named(g, m) && w == UnitFor(m, g);
        assert g in Subformulas(f);
      } else {
        var g :| g in Subformulas(f.r) && Compound(g) && Named(g, m) && w == UnitFor(m, g);
        assert g in Subformulas(f);
      }
    }
  }

  /**
   * The first half of generation for a binary node: the left operand's
   * units, then the three lookups and the emplaced unit.
   */
  lemma {:induction false} GenBinaryLeft(n: Names, us: seq<TUnit>, f: Formula)
      returns (n1: Names, us1: seq<TUnit>, n4: Names, u: TUnit, us2: seq<TUnit>)
    requires f.Binary?
    requires n.Valid() && Named(f, n) && Complete(f) && forall w | w in us :: Tidy(w)
    ensures n1.Valid() && n4.Valid() && n4.Extends(n1) && n4.Extends(n)
    ensures Generated(us, f.l, n1, us1) && Named(f, n4)
    ensures Tidy(u) && (forall w | w in us2 :: Tidy(w)) && (forall w :: w in us2 <==> w in us1 || w == u)
    ensures Lookup(n4, f).0 == n4 && Lookup(n4, f.l).0 == n4 && Lookup(n4, f.r).0 == n4
    ensures u == UnitFor(n4, f)
    ensures VarsBelow(f.r, |n4.rmap|) && GenSpec(n, us, f) == GenSpec(n4, us2, f.r)
    decreases f, 0
  {
    var l, rt, op := f.l, f.r, f.op;
    var r1 := GenSpec(n, us, l);
    n1, us1 := r1.0, r1.1;
    GenUnits(n, us, l);
    VarsBelowGrow(rt, |n.rmap|, |n1.rmap|);
    var (n2, a) := Lookup(n1, l);
    var (n3, b) := Lookup(n2, rt);
    var r4 := Lookup(n3, f);
    n4 := r4.0;
    u := TUnit(a, b, r4.1, op, false);
    NamedExtends(f, n, n1);
    BinaryUnitTidy(n1, f);
    us2 := InsertUnit(us1, u);
    InsertUnitMembers(us1, u);
    ExtendsTransitive(n, n1, n2);
    ExtendsTransitive(n, n2, n3);
    ExtendsTransitive(n, n3, n4);
    ExtendsTransitive(n1, n2, n3);
    ExtendsTransitive(n1, n3, n4);
    ExtendsTransitive(n2, n3, n4);
    VarsBelowGrow(rt, |n.rmap|, |n4.rmap|);
    NamedExtends(f, n, n4);
    LookupStable(n1, l, n4);
    LookupStable(n2, rt, n4);
    LookupStable(n3, f, n4);
  }

  lemma {:induction false} GenUnitsBinary(n: Names, us: seq<TUnit>, f: Formula)
    requires f.Binary?
    requires n.Valid() && Named(f, n) && Complete(f) && forall w | w in us :: Tidy(w)
    ensures Generated(us, f, GenSpec(n, us, f).0, GenSpec(n, us, f).1)
    decreases f, 1
  {
    var n1, us1, n4, u, us2 := GenBinaryLeft(n, us, f);
    NamedExtends(f, n, n4);
    var (m, vs) := GenSpec(n4, us2, f.r);
    GenUnits(n4, us2, f.r);
    ExtendsTransitive(n1, n4, m);
    PresentStable(n1, m, f.l);
    CoversStable(n1, m, us, us1, vs, f.l);
    LookupStable(n4, f, m);
    UnitForStable(n4, m, f);
    NamedExtends(f, n4, m);
    GeneratedBinary(us, us1, u, us2, f, m, vs);
  }

  /** The unit of a binary node is tidy: its right operand and the node itself print differently, so they get different pairs. */
  lemma BinaryUnitTidy(n1: Names, f: Formula)
    requires f.Binary? && n1.Valid() && Named(f, n1)
    ensures var (n2, a) := Lookup(n1, f.l);
            var (n3, b) := Lookup(n2, f.r);
            var (n4, c) := Lookup(n3, f);
            Tidy(TUnit(a, b, c, f.op, false))
  {
    var (n2, a) := Lookup(n1, f.l);
    NamedExtends(f, n1, n2);
    var (n3, b) := Lookup(n2, f.r);
    NamedExtends(f, n2, n3);
    var (n4, c) := Lookup(n3, f);
    assert n3.rmap <= n4.rmap;
    assert n4.rmap[b.pos.v] == Print(f.r) && n4.rmap[c.pos.v] == Print(f);
  }

  /** `gen_tu` keeps the unit set in key order. */
  lemma {:induction false} GenSorted(n: Names, us: seq<TUnit>, f: Formula)
    requires n.Valid() && HoleFree(f) && VarsBelow(f, |n.rmap|)
    requires SortedKeys(us)
    ensures SortedKeys(GenSpec(n, us, f).1)
    decreases f
  {
    match f
    case Invalid(_, _) =>
    case Variable(_, _) =>
    case Negated(g) =>
      assert VarsBelow(g, |n.rmap|);
      var (n1, a) := Lookup(n, g);
      var (n2, c) := Lookup(n1, f);
      VarsBelowGrow(g, |n.rmap|, |n2.rmap|);
      InsertUnitSorted(us, UnaryUnit(a, c));
      GenSorted(n2, InsertUnit(us, UnaryUnit(a, c)), g);
    case Binary(l, rt, op) =>
      var (n1, us1) := GenSpec(n, us, l);
      GenSorted(n, us, l);
      VarsBelowGrow(l, |n.rmap|, |n1.rmap|);
      var (n2, a) := Lookup(n1, l);
      VarsBelowGrow(rt, |n.rmap|, |n2.rmap|);
      var (n3, b) := Lookup(n2, rt);
      var (n4, c) := Lookup(n3, f);
      VarsBelowGrow(rt, |n2.rmap|, |n4.rmap|);
      InsertUnitSorted(us1, TUnit(a, b, c, op, false));
      GenSorted(n4, InsertUnit(us1, TUnit(a, b, c, op, false)), rt);
  }

  // ---------------------------------------------------------------------
  // What the clauses mean

  /**
   * When every unit of a covering set holds, the pair of each node carries
   * that node's truth value (for formulas without `<->`).
   */
  lemma {:induction false} EvalPair(m: Names, vs: seq<TUnit>, f: Formula, val: nat -> bool)
    requires m.Valid() && Named(f, m) && Complete(f) && NoEquiv(f)
    requires Present(m, f) && Covers(m, vs, f)
    requires forall w | w in vs :: Means(val, w)
    ensures PairValue(val, Lookup(m, f).1) == Eval(f, val)
  {
    match f
    case Variable(_, _) =>
    case Negated(g) =>
      assert Subformulas(f) == {f} + Subformulas(g);
      EvalPair(m, vs, g, val);
      assert UnitFor(m, f) in vs;
    case Binary(l, r, _) =>
      assert Subformulas(f) == {f} + Subformulas(l) + Subformulas(r);
      EvalPair(m, vs, l, val);
      EvalPair(m, vs, r, val);
      assert UnitFor(m, f) in vs;
  }

  /** The output clauses hold exactly when every unit holds and the root's pair is true. */
  lemma UnitsRootMeaning(val: nat -> bool, vs: seq<TUnit>, root: LPair)
    requires forall w | w in vs :: PairsComplementary(w)
    ensures CnfSat(val, UnitsCnf(vs) + [[root.pos]]) <==> (forall w | w in vs :: Means(val, w)) && PairValue(val, root)
  {
    CnfSatAppend(val, UnitsCnf(vs), [[root.pos]]);
    UnitsCnfMeaning(val, vs);
    assert [[root.pos]][0] == [root.pos] && [root.pos][0] == root.pos;
  }

  /** The pieces of the transform's output: the units' clauses and then the root clause. */
  lemma TransformParts(n: Names, f: Formula)
    requires n.Valid() && Named(f, n) && Complete(f)
    ensures var (m, vs) := GenSpec(n, [], f);
            && Generated([], f, m, vs)
            && (forall w | w in vs :: PairsComplementary(w))
            && TransformSpec(n, f) == (m, UnitsCnf(vs) + [[Lookup(m, f).1.pos]])
  {
    var (m, vs) := GenSpec(n, [], f);
    GenUnits(n, [], f);
    assert f in Subformulas(f) && Lookable(m, f);
    assert Lookup(m, f).0 == m;
    forall w | w in vs ensures PairsComplementary(w) {
      assert Tidy(w);
    }
  }

  /**
   * Soundness of `tseitin_transform`: a valuation that satisfies the output
   * satisfies the formula (for formulas without `<->`).
   */
  lemma TransformSound(n: Names, f: Formula, val: nat -> bool)
    requires n.Valid() && Named(f, n) && Complete(f) && NoEquiv(f)
    requires CnfSat(val, TransformSpec(n, f).1)
    ensures Eval(f, val)
  {
    var (m, vs) := GenSpec(n, [], f);
    TransformParts(n, f);
    UnitsRootMeaning(val, vs, Lookup(m, f).1);
    EvalPair(m, vs, f, val);
  }

  /** The ids of the variables of `f`. */
  function VarIds(f: Formula): set<nat> {
    match f
    case Variable(id, _) => {id}
    case Negated(g) => VarIds(g)
    case Binary(l, r, _) => VarIds(l) + VarIds(r)
    case _ => {}
  }

  lemma {:induction false} VarIdsSub(f: Formula, i: nat) returns (h: Formula)
    requires i in VarIds(f)
    ensures h in Subformulas(f) && h.Variable? && h.id == i
  {
    match f
    case Variable(_, _) => h := f;
    case Negated(g) => h := VarIdsSub(g, i);
    case Binary(l, r, _) =>
      if i in VarIds(l) { h := VarIdsSub(l, i); } else { h := VarIdsSub(r, i); }
  }

  lemma {:induction false} NoEquivSub(f: Formula, g: Formula)
    requires NoEquiv(f) && g in Subformulas(f)
    ensures NoEquiv(g)
  {
    if g != f {
      match f
      case Negated(h) => NoEquivSub(h, g);
      case Binary(l, r, _) =>
        if g in Subformulas(l) { NoEquivSub(l, g); } else { NoEquivSub(r, g); }
    }
  }

  lemma {:induction false} NamedPrintable(f: Formula, n: Names)
    requires Named(f, n) && Complete(f)
    ensures Printable(f)
  {
    match f
    case Variable(_, _) =>
    case Negated(g) => NamedPrintable(g, n);
    case Binary(l, r, _) =>
      NamedPrintable(l, n);
      NamedPrintable(r, n);
  }

  /** Under one valid table, a named formula is determined by its shape and names. */
  lemma {:induction false} NamedStrip(f: Formula, g: Formula, n: Names)
    requires n.Valid() && Named(f, n) && Named(g, n) && Strip(f) == Strip(g)
    ensures f == g
  {
    match f
    case Invalid(_, _) =>
    case Variable(id, name) =>
      assert n.vmap[n.rmap[id]] == id && n.vmap[n.rmap[g.id]] == g.id;
    case Negated(h) => NamedStrip(h, g.f, n);
    case Binary(l, r, _) =>
      NamedStrip(l, g.l, n);
      NamedStrip(r, g.r, n);
  }

  /**
   * The valuation that extends `val` to the variables the transform adds:
   * the id of a compound node of `f` takes that node's value.
   */
  ghost function Extended(val: nat -> bool, m: Names, f: Formula, i: nat): bool {
    if i < |m.rmap| && exists g | g in Subformulas(f) :: Compound(g) && Complete(g) && Print(g) == m.rmap[i] then
      var g :| g in Subformulas(f) && Compound(g) && Complete(g) && Print(g) == m.rmap[i];
      Eval(g, val)
    else val(i)
  }

  /** Under the extended valuation, the pair of every node of `f` carries the node's value. */
  lemma ExtendedValue(val: nat -> bool, m: Names, f: Formula, h: Formula)
    requires m.Valid() && Named(f, m) && Complete(f) && Present(m, f) && h in Subformulas(f)
    ensures Named(h, m) && Complete(h)
    ensures Extended(val, m, f, Lookup(m, h).1.pos.v) == Eval(h, val)
  {
    NamedSub(f, h, m);
    CompleteSub(f, h);
    assert Lookable(m, h);
    assert Lookup(m, h).0 == m;
    var i := Lookup(m, h).1.pos.v;
    assert m.rmap[i] == Print(h);
    if Compound(h) {
      forall g | g in Subformulas(f) && Compound(g) && Complete(g) && Print(g) == m.rmap[i] ensures g == h {
        SameNode(m, f, g, h);
      }
      assert h in Subformulas(f) && Compound(h) && Complete(h) && Print(h) == m.rmap[i];
    } else {
      forall g | g in Subformulas(f) && Compound(g) && Complete(g) ensures Print(g) != m.rmap[i] {
        CompoundPrintIsNotName(g);
      }
    }
  }

  /** Two nodes of a named formula that print alike are the same node. */
  lemma SameNode(m: Names, f: Formula, g: Formula, h: Formula)
    requires m.Valid() && Named(f, m) && Complete(f)
    requires g in Subformulas(f) && h in Subformulas(f) && HoleFree(g) && HoleFree(h) && Print(g) == Print(h)
    ensures g == h
  {
    NamedSub(f, g, m);
    NamedSub(f, h, m);
    CompleteSub(f, g);
    CompleteSub(f, h);
    NamedPrintable(g, m);
    NamedPrintable(h, m);
    PrintInjective(g, h);
    NamedStrip(g, h, m);
  }

  lemma {:induction false} CompleteSub(f: Formula, g: Formula)
    requires Complete(f) && g in Subformulas(f)
    ensures Complete(g)
  {
    if g != f {
      match f
      case Negated(h) => CompleteSub(h, g);
      case Binary(l, r, _) =>
        if g in Subformulas(l) { CompleteSub(l, g); } else { CompleteSub(r, g); }
    }
  }

  ghost function ExtendedVal(val: nat -> bool, m: Names, f: Formula): nat -> bool {
    (i: nat) => Extended(val, m, f, i)
  }

  /** Under the extended valuation, the unit of every compound node of `f` holds (for formulas without `<->`). */
  lemma UnitForHolds(val: nat -> bool, m: Names, f: Formula, g: Formula)
    requires m.Valid() && Named(f, m) && Complete(f) && NoEquiv(f) && Present(m, f)
    requires g in Subformulas(f) && Compound(g) && Named(g, m)
    ensures Means(ExtendedVal(val, m, f), UnitFor(m, g))
  {
    SubformulasClosed(f, g);
    NoEquivSub(f, g);
    ExtendedValue(val, m, f, g);
    if g.Negated? {
      ExtendedValue(val, m, f, g.f);
    } else {
      ExtendedValue(val, m, f, g.l);
      ExtendedValue(val, m, f, g.r);
    }
  }

  /**
   * Completeness of `tseitin_transform`: a valuation that satisfies the
   * formula extends, on the ids the transform adds, to one that satisfies
   * the output (for formulas without `<->`).
   */
  lemma TransformComplete(n: Names, f: Formula, val: nat -> bool)
    requires n.Valid() && Named(f, n) && Complete(f) && NoEquiv(f) && Eval(f, val)
    ensures exists val2: nat -> bool ::
              CnfSat(val2, TransformSpec(n, f).1) && forall i | i in VarIds(f) :: val2(i) == val(i)
  {
    var (m, vs) := GenSpec(n, [], f);
    TransformParts(n, f);
    var v2 := ExtendedVal(val, m, f);
    ExtendedSatisfies(val, m, vs, f);
    forall i | i in VarIds(f) ensures v2(i) == val(i) {
      var h := VarIdsSub(f, i);
      ExtendedValue(val, m, f, h);
    }
  }

  /** The extended valuation satisfies the units' clauses and the root clause. */
  lemma ExtendedSatisfies(val: nat -> bool, m: Names, vs: seq<TUnit>, f: Formula)
    requires m.Valid() && Named(f, m) && Complete(f) && NoEquiv(f) && Eval(f, val)
    requires Generated([], f, m, vs) && forall w | w in vs :: PairsComplementary(w)
    ensures CnfSat(ExtendedVal(val, m, f), UnitsCnf(vs) + [[Lookup(m, f).1.pos]])
  {
    var v2 := ExtendedVal(val, m, f);
    forall w | w in vs ensures Means(v2, w) {
      var g :| g in Subformulas(f) && Compound(g) && Named(g, m) && w == UnitFor(m, g);
      UnitForHolds(val, m, f, g);
    }
    UnitsCnfMeaning(v2, vs);
    assert f in Subformulas(f);
    ExtendedValue(val, m, f, f);
    var root := Lookup(m, f).1;
    assert [[root.pos]][0] == [root.pos] && [root.pos][0] == root.pos;
    CnfSatAppend(v2, UnitsCnf(vs), [[root.pos]]);
  }

  /** For formulas without `<->`, the output is satisfiable exactly when the formula is. */
  lemma TransformEquisatisfiable(n: Names, f: Formula)
    requires n.Valid() && Named(f, n) && Complete(f) && NoEquiv(f)
    ensures (exists val: nat -> bool :: Eval(f, val)) <==> (exists val: nat -> bool :: CnfSat(val, TransformSpec(n, f).1))
  {
    var cnf := TransformSpec(n, f).1;
    if val: nat -> bool :| Eval(f, val) {
      TransformComplete(n, f, val);
      var val2: nat -> bool :| CnfSat(val2, cnf) && forall i | i in VarIds(f) :: val2(i) == val(i);
      assert exists val: nat -> bool :: CnfSat(val, cnf);
    }
    if val: nat -> bool :| CnfSat(val, cnf) {
      TransformSound(n, f, val);
      assert exists val: nat -> bool :: Eval(f, val);
    }
  }

  /** `(!(a <-> b)) & a`: satisfiable, with `a` true and `b` false. */
  function EquivExample(): Formula {
    var a, b := Variable(0, "a"), Variable(1, "b");
    Binary(Negated(Binary(a, b, Equiv)), a, And)
  }

  /** A unit of a covering set that holds everywhere holds for each compound node. */
  lemma CoveredHolds(m: Names, vs: seq<TUnit>, f: Formula, g: Formula, val: nat -> bool)
    requires m.Valid() && Named(f, m) && Covers(m, vs, f) && forall w | w in vs :: Means(val, w)
    requires g in Subformulas(f) && Compound(g)
    ensures Named(g, m) && Means(val, UnitFor(m, g))
  {
    NamedSub(f, g, m);
  }

  lemma EquivExampleNamed(n: Names)
    requires n.Valid() && 2 <= |n.rmap| && n.rmap[0] == "a" && n.rmap[1] == "b"
    ensures Named(EquivExample(), n) && Complete(EquivExample())
  {
    var a, b := Variable(0, "a"), Variable(1, "b");
    assert IsVarName("a") && IsVarName("b");
    assert Named(a, n) && Named(b, n);
    assert Named(Binary(a, b, Equiv), n);
    assert Named(Negated(Binary(a, b, Equiv)), n);
  }

  /** The shape of `EquivExample`: `(!(x <-> y)) & x` for variables `x` and `y`. */
  predicate EquivPattern(f: Formula) {
    && f.Binary? && f.op == And && f.l.Negated? && f.l.f.Binary? && f.l.f.op == Equiv
    && f.l.f.l.Variable? && f.l.f.r.Variable? && f.r == f.l.f.l
  }

  /** A valuation satisfies the transform exactly when every unit holds and the root's pair is true. */
  lemma TransformHolds(n: Names, f: Formula, val: nat -> bool)
    requires n.Valid() && Named(f, n) && Complete(f)
    ensures var (m, vs) := GenSpec(n, [], f);
            CnfSat(val, TransformSpec(n, f).1) <==>
              (forall w | w in vs :: Means(val, w)) && PairValue(val, Lookup(m, f).1)
  {
    var (m, vs) := GenSpec(n, [], f);
    TransformParts(n, f);
    UnitsRootMeaning(val, vs, Lookup(m, f).1);
  }

  lemma PatternSubformulas(f: Formula)
    requires EquivPattern(f)
    ensures f in Subformulas(f) && f.l in Subformulas(f) && f.l.f in Subformulas(f)
  {
    assert f.l.f in Subformulas(f.l);
  }

  /** What the units force on a valuation that satisfies the transform of `(!(x <-> y)) & x`. */
  lemma EquivPatternUnits(n: Names, f: Formula, val: nat -> bool)
    requires n.Valid() && Named(f, n) && Complete(f) && EquivPattern(f)
    ensures CnfSat(val, TransformSpec(n, f).1) ==>
              var m := GenSpec(n, [], f).0;
              var x, y := f.r.id, f.l.f.r.id;
              var vf, vn, ve := PairValue(val, Lookup(m, f).1), PairValue(val, Lookup(m, f.l).1), PairValue(val, Lookup(m, f.l.f).1);
              vf && vf == (vn && val(x)) && vn == !ve && val(x) == val(y) && val(y) == ve
  {
    var (m, vs) := GenSpec(n, [], f);
    TransformParts(n, f);
    TransformHolds(n, f, val);
    PatternSubformulas(f);
    if CnfSat(val, TransformSpec(n, f).1) {
      CoveredHolds(m, vs, f, f, val);
      CoveredHolds(m, vs, f, f.l, val);
      CoveredHolds(m, vs, f, f.l.f, val);
    }
  }

  /**
   * With `<->` the transform is not equisatisfiable: `EquivExample` is
   * satisfiable, but no valuation satisfies its transform.
   */
  lemma EquivExampleUnsatisfiable(n: Names)
    requires n.Valid() && 2 <= |n.rmap| && n.rmap[0] == "a" && n.rmap[1] == "b"
    ensures Complete(EquivExample()) && Eval(EquivExample(), (i: nat) => i == 0)
    ensures Named(EquivExample(), n) && forall val: nat -> bool :: !CnfSat(val, TransformSpec(n, EquivExample()).1)
  {
    EquivExampleNamed(n);
    forall val: nat -> bool ensures !CnfSat(val, TransformSpec(n, EquivExample()).1) {
      EquivPatternUnits(n, EquivExample(), val);
    }
  }

  /** A lone variable compiles to the unit clause of its own positive literal, and the table is untouched. */
  lemma TransformVariable(n: Names, f: Formula)
    requires n.Valid() && f.Variable? && f.id < |n.rmap|
    ensures TransformSpec(n, f) == (n, [[Literal(f.id, true)]])
  {
    assert GenSpec(n, [], f) == (n, []);
    assert Lookup(n, f) == (n, PairOf(f.id));
    var e: seq<Clause> := [];
    assert UnitsCnf([]) == e && e + [[Literal(f.id, true)]] == [[Literal(f.id, true)]];
  }

  // ---------------------------------------------------------------------
  // Direct recognition of formulas already in CNF

  /** `Lmap` as `Compiler.Valid` keeps it: entry `i` is the pair of variable `i`. */
  predicate PairsOf(lmap: seq<LPair>) {
    forall i | 0 <= i < |lmap| :: lmap[i] == PairOf(i)
  }

  /** A variable under any number of negations. */
  predicate IsLiteralForm(f: Formula) {
    match f
    case Variable(_, _) => true
    case Negated(g) => IsLiteralForm(g)
    case _ => false
  }

  /** A disjunction tree over literal forms. */
  predicate IsClauseForm(f: Formula) {
    if f.Binary? then f.op == Or && IsClauseForm(f.l) && IsClauseForm(f.r)
    else IsLiteralForm(f)
  }

  /** A conjunction tree over clause forms. */
  predicate IsCnfForm(f: Formula) {
    if f.Binary? && f.op == And then IsCnfForm(f.l) && IsCnfForm(f.r)
    else IsClauseForm(f)
  }

  /** `parse_into_literal`: a variable's literal from `Lmap`, negated once per `!` above it; anything else is null. */
  function ParseIntoLiteral(lmap: seq<LPair>, f: Formula, negate: bool): Option<Literal>
    requires HoleFree(f) && VarsBelow(f, |lmap|)
  {
    match f
    case Variable(id, _) => if negate then Some(lmap[id].neg) else Some(lmap[id].pos)
    case Negated(g) => ParseIntoLiteral(lmap, g, !negate)
    case _ => None
  }

  /** `parse_into_clause`: the literals of an `|`-tree, left to right (`merge_clause` concatenates). */
  function ParseIntoClause(lmap: seq<LPair>, f: Formula): Option<Clause>
    requires HoleFree(f) && VarsBelow(f, |lmap|)
  {
    if f.Binary? then
      if f.op != Or then None
      else
        var left, right := ParseIntoClause(lmap, f.l), ParseIntoClause(lmap, f.r);
        if left.None? || right.None? then None else Some(left.value + right.value)
    else
      var l := ParseIntoLiteral(lmap, f, false);
      if l.None? then None else Some([l.value])
  }

  /** `parse_into_cnf`: the clauses of an `&`-tree of clause forms, left to right. */
  function ParseIntoCnf(lmap: seq<LPair>, f: Formula): Option<seq<Clause>>
    requires HoleFree(f) && VarsBelow(f, |lmap|)
  {
    if f.Binary? && f.op == And then
      var left, right := ParseIntoCnf(lmap, f.l), ParseIntoCnf(lmap, f.r);
      if left.None? || right.None? then None else Some(left.value + right.value)
    else if f.Binary? && f.op != Or then None
    else
      var c := ParseIntoClause(lmap, f);
      if c.None? then None else Some([c.value])
  }

  /**
   * `parse_into_literal` succeeds exactly on literal forms, and the literal
   * it returns is true exactly when the formula's value differs from `negate`.
   */
  lemma {:induction false} ParseIntoLiteralSpec(lmap: seq<LPair>, f: Formula, negate: bool, val: nat -> bool)
    requires HoleFree(f) && VarsBelow(f, |lmap|) && PairsOf(lmap)
    ensures ParseIntoLiteral(lmap, f, negate).Some? <==> IsLiteralForm(f)
    ensures IsLiteralForm(f) ==> Complete(f) && LitValue(val, ParseIntoLiteral(lmap, f, negate).value) == (Eval(f, val) != negate)
  {
    match f
    case Invalid(_, _) =>
    case Variable(id, _) => assert lmap[id] == PairOf(id);
    case Negated(g) => ParseIntoLiteralSpec(lmap, g, !negate, val);
    case Binary(_, _, _) =>
  }

  /** `parse_into_clause` succeeds exactly on clause forms, and its clause holds exactly when the formula does. */
  lemma {:induction false} ParseIntoClauseSpec(lmap: seq<LPair>, f: Formula, val: nat -> bool)
    requires HoleFree(f) && VarsBelow(f, |lmap|) && PairsOf(lmap)
    ensures ParseIntoClause(lmap, f).Some? <==> IsClauseForm(f)
    ensures IsClauseForm(f) ==> Complete(f) && ClauseSat(val, ParseIntoClause(lmap, f).value) == Eval(f, val)
  {
    if f.Binary? {
      ParseIntoClauseSpec(lmap, f.l, val);
      ParseIntoClauseSpec(lmap, f.r, val);
      if IsClauseForm(f) {
        ClauseSatAppend(val, ParseIntoClause(lmap, f.l).value, ParseIntoClause(lmap, f.r).value);
      }
    } else {
      ParseIntoLiteralSpec(lmap, f, false, val);
      if IsLiteralForm(f) {
        var l := ParseIntoLiteral(lmap, f, false).value;
        assert [l][0] == l;
      }
    }
  }

  /** `parse_into_cnf` succeeds exactly on CNF forms, and its clauses hold exactly when the formula does. */
  lemma {:induction false} ParseIntoCnfSpec(lmap: seq<LPair>, f: Formula, val: nat -> bool)
    requires HoleFree(f) && VarsBelow(f, |lmap|) && PairsOf(lmap)
    ensures ParseIntoCnf(lmap, f).Some? <==> IsCnfForm(f)
    ensures IsCnfForm(f) ==> Complete(f) && CnfSat(val, ParseIntoCnf(lmap, f).value) == Eval(f, val)
  {
    if f.Binary? && f.op == And {
      ParseIntoCnfSpec(lmap, f.l, val);
      ParseIntoCnfSpec(lmap, f.r, val);
      if IsCnfForm(f) {
        CnfSatAppend(val, ParseIntoCnf(lmap, f.l).value, ParseIntoCnf(lmap, f.r).value);
      }
    } else {
      ParseIntoClauseSpec(lmap, f, val);
      if IsClauseForm(f) {
        var c := ParseIntoClause(lmap, f).value;
        assert [c][0] == c;
      }
    }
  }
}
