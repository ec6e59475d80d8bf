/**
 * The DPLL engine of src/dpll.cpp: a tri-state interpretation of the
 * variables, the order-sensitive classification of clauses, unit
 * propagation with undo on conflict, and the decision stack with
 * single-flip chronological backtracking.
 *
 * The read-only scans (`interpret_clause`, `interpret_cnf`,
 * `find_unit_clause`, `decide`) are functions over the interpretation's
 * vector; the code that assigns, records and backtracks is imperative.
 */
module Dpll {
  import opened Wrappers
  import opened Cnf

  /** `vinterp`: the value of one variable in a partial interpretation. */
  datatype VInterp = VTrue | VFalse | VUndef

  /** `cinterp`: the classification of one clause. */
  datatype CInterp = CTrue | CFalse | CUnit | CUndef

  /** The interpretation of a defined Boolean. */
  function Of(b: bool): (r: VInterp)
    ensures r != VUndef && (r == VTrue <==> b)
  {
    if b then VTrue else VFalse
  }

  /** Every literal of the clause names a variable of the interpretation. */
  predicate ClauseIn(c: Clause, n: nat) {
    forall j | 0 <= j < |c| :: c[j].v < n
  }

  /** Every literal of the clause list names a variable of the interpretation. */
  predicate CnfIn(cnf: seq<Clause>, n: nat) {
    forall i | 0 <= i < |cnf| :: ClauseIn(cnf[i], n)
  }

  /**
   * `Interp::satisfies`: undefined when the variable is, otherwise true
   * exactly when the assigned value is the literal's polarity.
   */
  function LitInterp(a: seq<VInterp>, l: Literal): (r: VInterp)
    requires l.v < |a|
    ensures r == VUndef <==> a[l.v] == VUndef
    ensures r == VTrue <==> a[l.v] == Of(l.isTrue)
  {
    match a[l.v]
    case VTrue => if l.isTrue then VTrue else VFalse
    case VFalse => if l.isTrue then VFalse else VTrue
    case VUndef => VUndef
  }

  // ----- The meaning of a partial interpretation -----

  /** A total valuation agrees with every variable the interpretation defines. */
  ghost predicate Agrees(val: nat -> bool, a: seq<VInterp>) {
    forall v | 0 <= v < |a| && a[v] != VUndef :: val(v) == (a[v] == VTrue)
  }

  /** A defined literal has the value its interpretation says under any agreeing valuation. */
  lemma LitInterpAgrees(val: nat -> bool, a: seq<VInterp>, l: Literal)
    requires l.v < |a| && Agrees(val, a) && LitInterp(a, l) != VUndef
    ensures LitValue(val, l) == (LitInterp(a, l) == VTrue)
  {
  }

  // ----- interpret_clause -----

  predicate IsUndef(a: seq<VInterp>, l: Literal)
    requires l.v < |a|
  {
    LitInterp(a, l) == VUndef
  }

  /**
   * The loop of `interpret_clause` from literal i on, with `seen` the first
   * undefined literal met so far (the one written to `undef_var` and
   * `undef_sat_interp`). The second component is that literal at return.
   */
  function ClauseFrom(c: Clause, a: seq<VInterp>, i: nat, seen: Option<Literal>): (r: (CInterp, Option<Literal>))
    requires i <= |c| && ClauseIn(c, |a|)
    requires seen.Some? ==> seen.value.v < |a| && IsUndef(a, seen.value)
    ensures seen.Some? ==> r.1 == seen
    ensures (r.0 == CUnit || r.0 == CUndef) ==> r.1.Some?
    ensures r.1.Some? ==> r.1.value.v < |a| && IsUndef(a, r.1.value)
    decreases |c| - i
  {
    if i == |c| then (if seen.None? then CFalse else CUnit, seen)
    else match LitInterp(a, c[i])
      case VTrue => (CTrue, seen)
      case VUndef => if seen.Some? then (CUndef, seen) else ClauseFrom(c, a, i + 1, Some(c[i]))
      case VFalse => ClauseFrom(c, a, i + 1, seen)
  }

  /** `interpret_clause`: the class of the clause and the first undefined literal the scan met. */
  function InterpretClause(c: Clause, a: seq<VInterp>): (r: (CInterp, Option<Literal>))
    requires ClauseIn(c, |a|)
    ensures (r.0 == CUnit || r.0 == CUndef) ==> r.1.Some?
    ensures r.1.Some? ==> r.1.value.v < |a| && IsUndef(a, r.1.value)
  {
    ClauseFrom(c, a, 0, None)
  }

  /** Every literal of the clause is false. */
  ghost predicate AllFalse(c: Clause, a: seq<VInterp>)
    requires ClauseIn(c, |a|)
  {
    forall j | 0 <= j < |c| :: LitInterp(a, c[j]) == VFalse
  }

  /** Literal k is undefined and every other literal is false. */
  ghost predicate OnlyUndef(c: Clause, a: seq<VInterp>, k: int)
    requires ClauseIn(c, |a|)
  {
    && 0 <= k < |c| && IsUndef(a, c[k])
    && forall j | 0 <= j < |c| && j != k :: LitInterp(a, c[j]) == VFalse
  }

  /** Literal j is true and no two undefined literals come before it. */
  ghost predicate TrueEarly(c: Clause, a: seq<VInterp>, j: int)
    requires ClauseIn(c, |a|)
  {
    && 0 <= j < |c| && LitInterp(a, c[j]) == VTrue
    && forall i1, i2 | 0 <= i1 < i2 < j :: !(IsUndef(a, c[i1]) && IsUndef(a, c[i2]))
  }

  /** Literals i1 < i2 are undefined and no literal before i2 is true. */
  ghost predicate TwoUndefEarly(c: Clause, a: seq<VInterp>, i1: int, i2: int)
    requires ClauseIn(c, |a|)
  {
    && 0 <= i1 < i2 < |c| && IsUndef(a, c[i1]) && IsUndef(a, c[i2])
    && forall j | 0 <= j < i2 :: LitInterp(a, c[j]) != VTrue
  }

  /** Literal k is undefined and the first undefined literal of the clause. */
  ghost predicate FirstUndef(c: Clause, a: seq<VInterp>, k: int)
    requires ClauseIn(c, |a|)
  {
    0 <= k < |c| && IsUndef(a, c[k]) && forall j | 0 <= j < k :: !IsUndef(a, c[j])
  }

  /** What the scan has established about literals 0 .. i-1. */
  ghost predicate ScanInv(c: Clause, a: seq<VInterp>, i: nat, seen: Option<Literal>)
    requires i <= |c| && ClauseIn(c, |a|)
  {
    if seen.None? then forall j | 0 <= j < i :: LitInterp(a, c[j]) == VFalse
    else exists k | 0 <= k < i :: c[k] == seen.value && FirstUndef(c, a, k)
                                  && forall j | 0 <= j < i && j != k :: LitInterp(a, c[j]) == VFalse
  }

  lemma {:induction false} ClauseFromSpec(c: Clause, a: seq<VInterp>, i: nat, seen: Option<Literal>)
    requires i <= |c| && ClauseIn(c, |a|)
    requires seen.Some? ==> seen.value.v < |a| && IsUndef(a, seen.value)
    requires ScanInv(c, a, i, seen)
    ensures var r := ClauseFrom(c, a, i, seen);
      && (r.0 == CFalse ==> AllFalse(c, a))
      && (r.0 == CUnit ==> exists k :: OnlyUndef(c, a, k) && FirstUndef(c, a, k) && r.1 == Some(c[k]))
      && (r.0 == CTrue ==> exists j :: TrueEarly(c, a, j))
      && (r.0 == CUndef ==> exists i1, i2 :: TwoUndefEarly(c, a, i1, i2) && FirstUndef(c, a, i1) && r.1 == Some(c[i1]))
    decreases |c| - i
  {
    var r := ClauseFrom(c, a, i, seen);
    if i == |c| {
      if seen.Some? {
        var k :| 0 <= k < i && c[k] == seen.value && FirstUndef(c, a, k)
                 && forall j | 0 <= j < i && j != k :: LitInterp(a, c[j]) == VFalse;
        assert OnlyUndef(c, a, k);
      }
    } else {
      match LitInterp(a, c[i])
      case VTrue =>
        if seen.Some? {
          var k :| 0 <= k < i && c[k] == seen.value && FirstUndef(c, a, k)
                   && forall j | 0 <= j < i && j != k :: LitInterp(a, c[j]) == VFalse;
          assert TrueEarly(c, a, i);
        } else {
          assert TrueEarly(c, a, i);
        }
      case VUndef =>
        if seen.Some? {
          var k :| 0 <= k < i && c[k] == seen.value && FirstUndef(c, a, k)
                   && forall j | 0 <= j < i && j != k :: LitInterp(a, c[j]) == VFalse;
          assert TwoUndefEarly(c, a, k, i);
        } else {
          assert FirstUndef(c, a, i);
          assert ScanInv(c, a, i + 1, Some(c[i]));
          ClauseFromSpec(c, a, i + 1, Some(c[i]));
        }
      case VFalse =>
        if seen.Some? {
          var k :| 0 <= k < i && c[k] == seen.value && FirstUndef(c, a, k)
                   && forall j | 0 <= j < i && j != k :: LitInterp(a, c[j]) == VFalse;
          assert ScanInv(c, a, i + 1, seen);
        }
        ClauseFromSpec(c, a, i + 1, seen);
    }
  }

  /**
   * The order-sensitive behaviour of `interpret_clause`: `ctrue` at a true
   * literal met before a second undefined one, `cundef` at the second
   * undefined literal, `cunit` for exactly one undefined and no true
   * literal, `cfalse` when every literal is false (the empty clause
   * included). The reported literal is the first undefined one.
   */
  lemma InterpretClauseSpec(c: Clause, a: seq<VInterp>)
    requires ClauseIn(c, |a|)
    ensures var r := InterpretClause(c, a);
      && (r.0 == CFalse <==> AllFalse(c, a))
      && (r.0 == CUnit <==> exists k :: OnlyUndef(c, a, k))
      && (r.0 == CTrue <==> exists j :: TrueEarly(c, a, j))
      && (r.0 == CUndef <==> exists i1, i2 :: TwoUndefEarly(c, a, i1, i2))
      && ((r.0 == CUnit || r.0 == CUndef) ==> exists k :: FirstUndef(c, a, k) && r.1 == Some(c[k]))
  {
    ClauseFromSpec(c, a, 0, None);
    var r := InterpretClause(c, a);
    match r.0
    case CFalse => ExclusiveFalse(c, a);
    case CUnit =>
      var k :| OnlyUndef(c, a, k);
      ExclusiveUnit(c, a, k);
    case CTrue =>
      var j :| TrueEarly(c, a, j);
      ExclusiveTrue(c, a, j);
    case CUndef =>
      var i1, i2 :| TwoUndefEarly(c, a, i1, i2);
      ExclusiveUndef(c, a, i1, i2);
  }

  lemma ExclusiveFalse(c: Clause, a: seq<VInterp>)
    requires ClauseIn(c, |a|) && AllFalse(c, a)
    ensures forall k :: !OnlyUndef(c, a, k)
    ensures forall j :: !TrueEarly(c, a, j)
    ensures forall i1, i2 :: !TwoUndefEarly(c, a, i1, i2)
  {
  }

  lemma ExclusiveUnit(c: Clause, a: seq<VInterp>, k: nat)
    requires ClauseIn(c, |a|) && OnlyUndef(c, a, k)
    ensures forall j :: !TrueEarly(c, a, j)
    ensures forall i1, i2 :: !TwoUndefEarly(c, a, i1, i2)
  {
  }

  lemma ExclusiveUndef(c: Clause, a: seq<VInterp>, i1: int, i2: int)
    requires ClauseIn(c, |a|) && TwoUndefEarly(c, a, i1, i2)
    ensures !AllFalse(c, a)
    ensures forall k :: !OnlyUndef(c, a, k)
    ensures forall j :: !TrueEarly(c, a, j)
  {
  }

  lemma ExclusiveTrue(c: Clause, a: seq<VInterp>, j: nat)
    requires ClauseIn(c, |a|) && TrueEarly(c, a, j)
    ensures forall i1, i2 :: !TwoUndefEarly(c, a, i1, i2)
  {
  }

  /** Two undefined literals before a true one make the clause `cundef`, though it is satisfied. */
  lemma InterpretClauseOrderSensitive(x: Literal, y: Literal, z: Literal, a: seq<VInterp>)
    requires x.v < |a| && y.v < |a| && z.v < |a|
    requires a[x.v] == VUndef && a[y.v] == VUndef && a[z.v] == Of(z.isTrue)
    ensures InterpretClause([x, y, z], a).0 == CUndef
    ensures InterpretClause([z, x, y], a).0 == CTrue
  {
    var c := [x, y, z];
    assert ClauseFrom(c, a, 1, Some(x)) == (CUndef, Some(x));
  }

  // ----- What a clause class means for the valuations that agree -----

  /** A `ctrue` clause holds under every valuation that agrees with the interpretation. */
  lemma ClauseTrueHolds(val: nat -> bool, c: Clause, a: seq<VInterp>)
    requires ClauseIn(c, |a|) && Agrees(val, a)
    requires InterpretClause(c, a).0 == CTrue
    ensures ClauseSat(val, c)
  {
    InterpretClauseSpec(c, a);
    var j :| TrueEarly(c, a, j);
    LitInterpAgrees(val, a, c[j]);
  }

  /** A `cfalse` clause fails under every valuation that agrees with the interpretation. */
  lemma ClauseFalseFails(val: nat -> bool, c: Clause, a: seq<VInterp>)
    requires ClauseIn(c, |a|) && Agrees(val, a)
    requires InterpretClause(c, a).0 == CFalse
    ensures !ClauseSat(val, c)
  {
    InterpretClauseSpec(c, a);
    forall j | 0 <= j < |c| ensures !LitValue(val, c[j]) {
      LitInterpAgrees(val, a, c[j]);
    }
  }

  /**
   * A `cunit` clause forces its undefined literal: an agreeing valuation
   * that satisfies the clause makes that literal true, so it also agrees
   * with the interpretation extended by the literal.
   */
  lemma UnitForced(val: nat -> bool, c: Clause, a: seq<VInterp>)
    requires ClauseIn(c, |a|) && Agrees(val, a) && ClauseSat(val, c)
    requires InterpretClause(c, a).0 == CUnit
    ensures var l := InterpretClause(c, a).1.value;
      LitValue(val, l) && Agrees(val, a[l.v := Of(l.isTrue)])
  {
    InterpretClauseSpec(c, a);
    var l := InterpretClause(c, a).1.value;
    var k :| OnlyUndef(c, a, k);
    var k' :| FirstUndef(c, a, k') && Some(l) == Some(c[k']);
    assert k' == k;
    var j :| 0 <= j < |c| && LitValue(val, c[j]);
    if j != k {
      LitInterpAgrees(val, a, c[j]);
    }
  }

  // ----- interpret_cnf -----

  /** Clause i exists and has class k. */
  ghost predicate ClauseIs(cnf: seq<Clause>, a: seq<VInterp>, i: int, k: CInterp)
    requires CnfIn(cnf, |a|)
  {
    0 <= i < |cnf| && InterpretClause(cnf[i], a).0 == k
  }

  /**
   * The loop of `interpret_cnf` from clause i on. The second component is
   * the index written to `offending_clause`, if any.
   */
  function CnfFrom(cnf: seq<Clause>, a: seq<VInterp>, i: nat, seenUndef: bool): (r: (VInterp, Option<nat>))
    requires i <= |cnf| && CnfIn(cnf, |a|)
    decreases |cnf| - i
  {
    if i == |cnf| then (if seenUndef then VUndef else VTrue, None)
    else match InterpretClause(cnf[i], a).0
      case CFalse => (VFalse, Some(i))
      case CTrue => CnfFrom(cnf, a, i + 1, seenUndef)
      case _ => CnfFrom(cnf, a, i + 1, true)
  }

  /** `interpret_cnf`: the value of the clause list and the first `cfalse` clause. */
  function InterpretCnf(cnf: seq<Clause>, a: seq<VInterp>): (VInterp, Option<nat>)
    requires CnfIn(cnf, |a|)
  {
    CnfFrom(cnf, a, 0, false)
  }

  lemma {:induction false} CnfFromSpec(cnf: seq<Clause>, a: seq<VInterp>, i: nat, seenUndef: bool)
    requires i <= |cnf| && CnfIn(cnf, |a|)
    requires forall j | 0 <= j < i :: !ClauseIs(cnf, a, j, CFalse)
    requires seenUndef <==> exists j | 0 <= j < i :: !ClauseIs(cnf, a, j, CTrue)
    ensures var r := CnfFrom(cnf, a, i, seenUndef);
      && (r.0 == VFalse <==> exists j :: ClauseIs(cnf, a, j, CFalse))
      && (r.0 == VTrue <==> forall j | 0 <= j < |cnf| :: ClauseIs(cnf, a, j, CTrue))
      && (r.1.Some? <==> r.0 == VFalse)
      && (r.1.Some? ==> ClauseIs(cnf, a, r.1.value, CFalse)
                        && forall j | 0 <= j < r.1.value :: !ClauseIs(cnf, a, j, CFalse))
    decreases |cnf| - i
  {
    if i < |cnf| {
      var k := InterpretClause(cnf[i], a).0;
      assert ClauseIs(cnf, a, i, k);
      if k != CFalse {
        var seen := seenUndef || k != CTrue;
        if seen {
          if seenUndef {
            var j :| 0 <= j < i && !ClauseIs(cnf, a, j, CTrue);
            assert 0 <= j < i + 1 && !ClauseIs(cnf, a, j, CTrue);
          } else {
            assert 0 <= i < i + 1 && !ClauseIs(cnf, a, i, CTrue);
          }
        } else {
          forall j | 0 <= j < i + 1 ensures ClauseIs(cnf, a, j, CTrue) {
            if j < i {
              assert !exists j' | 0 <= j' < i :: !ClauseIs(cnf, a, j', CTrue);
            }
          }
        }
        CnfFromSpec(cnf, a, i + 1, seen);
      } else {
        assert !ClauseIs(cnf, a, i, CTrue);
      }
    }
  }

  /**
   * `interpret_cnf` is `vfalse` exactly when some clause is `cfalse`, and
   * then reports the first one; `vtrue` exactly when every clause is
   * `ctrue`; `vundef` otherwise.
   */
  lemma InterpretCnfSpec(cnf: seq<Clause>, a: seq<VInterp>)
    requires CnfIn(cnf, |a|)
    ensures var r := InterpretCnf(cnf, a);
      && (r.0 == VFalse <==> exists j :: ClauseIs(cnf, a, j, CFalse))
      && (r.0 == VTrue <==> forall j | 0 <= j < |cnf| :: ClauseIs(cnf, a, j, CTrue))
      && (r.1.Some? <==> r.0 == VFalse)
      && (r.1.Some? ==> ClauseIs(cnf, a, r.1.value, CFalse)
                        && forall j | 0 <= j < r.1.value :: !ClauseIs(cnf, a, j, CFalse))
  {
    CnfFromSpec(cnf, a, 0, false);
  }

  /** A `vfalse` clause list fails under every agreeing valuation. */
  lemma CnfFalseFails(val: nat -> bool, cnf: seq<Clause>, a: seq<VInterp>)
    requires CnfIn(cnf, |a|) && Agrees(val, a)
    requires InterpretCnf(cnf, a).0 == VFalse
    ensures !CnfSat(val, cnf)
  {
    InterpretCnfSpec(cnf, a);
    var j :| ClauseIs(cnf, a, j, CFalse);
    ClauseFalseFails(val, cnf[j], a);
  }

  /** A `vtrue` clause list holds under every agreeing valuation. */
  lemma CnfTrueHolds(val: nat -> bool, cnf: seq<Clause>, a: seq<VInterp>)
    requires CnfIn(cnf, |a|) && Agrees(val, a)
    requires InterpretCnf(cnf, a).0 == VTrue
    ensures CnfSat(val, cnf)
  {
    InterpretCnfSpec(cnf, a);
    forall j | 0 <= j < |cnf| ensures ClauseSat(val, cnf[j]) {
      assert ClauseIs(cnf, a, j, CTrue);
      ClauseTrueHolds(val, cnf[j], a);
    }
  }

  // ----- find_unit_clause and decide -----

  /** The loop of `find_unit_clause` from clause i on: the clause index and its unit literal. */
  function UnitFrom(cnf: seq<Clause>, a: seq<VInterp>, i: nat): (r: Option<(nat, Literal)>)
    requires i <= |cnf| && CnfIn(cnf, |a|)
    ensures r.Some? ==> i <= r.value.0 < |cnf|
    decreases |cnf| - i
  {
    if i == |cnf| then None
    else
      var c := InterpretClause(cnf[i], a);
      if c.0 == CUnit then Some((i, c.1.value)) else UnitFrom(cnf, a, i + 1)
  }

  /** `find_unit_clause`: the first `cunit` clause and the literal it forces, or none. */
  function FindUnitClause(cnf: seq<Clause>, a: seq<VInterp>): Option<(nat, Literal)>
    requires CnfIn(cnf, |a|)
  {
    UnitFrom(cnf, a, 0)
  }

  lemma {:induction false} UnitFromSpec(cnf: seq<Clause>, a: seq<VInterp>, i: nat)
    requires i <= |cnf| && CnfIn(cnf, |a|)
    ensures var r := UnitFrom(cnf, a, i);
      && (r.None? <==> forall j | i <= j < |cnf| :: !ClauseIs(cnf, a, j, CUnit))
      && (r.Some? ==> && ClauseIs(cnf, a, r.value.0, CUnit)
                      && InterpretClause(cnf[r.value.0], a).1 == Some(r.value.1)
                      && forall j | i <= j < r.value.0 :: !ClauseIs(cnf, a, j, CUnit))
    decreases |cnf| - i
  {
    if i < |cnf| {
      assert ClauseIs(cnf, a, i, InterpretClause(cnf[i], a).0);
      UnitFromSpec(cnf, a, i + 1);
    }
  }

  /**
   * `find_unit_clause` reports the first `cunit` clause, or none when no
   * clause is `cunit`; the literal it reports is that clause's only
   * undefined literal, so it names an unassigned variable.
   */
  lemma FindUnitClauseSpec(cnf: seq<Clause>, a: seq<VInterp>)
    requires CnfIn(cnf, |a|)
    ensures var r := FindUnitClause(cnf, a);
      && (r.None? <==> forall j | 0 <= j < |cnf| :: !ClauseIs(cnf, a, j, CUnit))
      && (r.Some? ==> && ClauseIs(cnf, a, r.value.0, CUnit)
                      && InterpretClause(cnf[r.value.0], a).1 == Some(r.value.1)
                      && (forall j | 0 <= j < r.value.0 :: !ClauseIs(cnf, a, j, CUnit))
                      && r.value.1.v < |a| && a[r.value.1.v] == VUndef)
  {
    UnitFromSpec(cnf, a, 0);
  }

  /** The loop of `decide` from clause i on: the first undefined literal of the first `cundef` clause. */
  function DecideFrom(cnf: seq<Clause>, a: seq<VInterp>, i: nat): (r: Option<Literal>)
    requires i <= |cnf| && CnfIn(cnf, |a|)
    decreases |cnf| - i
  {
    if i == |cnf| then None
    else
      var c := InterpretClause(cnf[i], a);
      if c.0 == CUndef then c.1 else DecideFrom(cnf, a, i + 1)
  }

  /** `decide`: the literal to decide on, or none when no clause is `cundef`. */
  function Decide(cnf: seq<Clause>, a: seq<VInterp>): Option<Literal>
    requires CnfIn(cnf, |a|)
  {
    DecideFrom(cnf, a, 0)
  }

  lemma {:induction false} DecideFromSpec(cnf: seq<Clause>, a: seq<VInterp>, i: nat)
    requires i <= |cnf| && CnfIn(cnf, |a|)
    ensures var r := DecideFrom(cnf, a, i);
      && (r.None? <==> forall j | i <= j < |cnf| :: !ClauseIs(cnf, a, j, CUndef))
      && (r.Some? ==> exists k | i <= k < |cnf| ::
                        && ClauseIs(cnf, a, k, CUndef)
                        && InterpretClause(cnf[k], a).1 == r
                        && forall j | i <= j < k :: !ClauseIs(cnf, a, j, CUndef))
    decreases |cnf| - i
  {
    if i < |cnf| {
      assert ClauseIs(cnf, a, i, InterpretClause(cnf[i], a).0);
      DecideFromSpec(cnf, a, i + 1);
    }
  }

  /**
   * `decide` returns true exactly when some clause is `cundef`, and then
   * reports the first undefined literal of the first such clause, whose
   * variable is unassigned.
   */
  lemma DecideSpec(cnf: seq<Clause>, a: seq<VInterp>)
    requires CnfIn(cnf, |a|)
    ensures var r := Decide(cnf, a);
      && (r.None? <==> forall j | 0 <= j < |cnf| :: !ClauseIs(cnf, a, j, CUndef))
      && (r.Some? ==> && (exists k | 0 <= k < |cnf| ::
                            && ClauseIs(cnf, a, k, CUndef)
                            && InterpretClause(cnf[k], a).1 == r
                            && forall j | 0 <= j < k :: !ClauseIs(cnf, a, j, CUndef))
                      && r.value.v < |a| && a[r.value.v] == VUndef)
  {
    DecideFromSpec(cnf, a, 0);
  }

  // ----- The interpretation object -----

  /** The number of unassigned variables. */
  function Unassigned(a: seq<VInterp>): nat {
    if a == [] then 0 else (if a[0] == VUndef then 1 else 0) + Unassigned(a[1..])
  }

  /** Assigning an unassigned variable leaves one fewer unassigned. */
  lemma {:induction false} UnassignedAssign(a: seq<VInterp>, v: nat, x: VInterp)
    requires v < |a| && a[v] == VUndef && x != VUndef
    ensures Unassigned(a[v := x]) + 1 == Unassigned(a)
  {
    if v > 0 {
      assert a[v := x][1..] == a[1..][v - 1 := x];
      UnassignedAssign(a[1..], v - 1, x);
    } else {
      assert a[v := x][1..] == a[1..];
    }
  }

  /** `Interp`: the tri-state assignment vector, indexed by variable id. */
  class Interp {
    var asmts: seq<VInterp>

    /** `Interp(size)`: `size` variables, all unassigned. */
    constructor (size: nat)
      ensures |asmts| == size && forall v | 0 <= v < size :: asmts[v] == VUndef
    {
      var s := [];
      for i := 0 to size
        invariant |s| == i && forall v | 0 <= v < i :: s[v] == VUndef
      {
        s := s + [VUndef];
      }
      asmts := s;
    }

    /** `update(var, vinterp)`. */
    method Update(v: nat, vi: VInterp)
      requires v < |asmts|
      modifies this
      ensures asmts == old(asmts)[v := vi]
    {
      asmts := asmts[v := vi];
    }

    /** `update(var, bool)`: assign a defined value. */
    method Assign(v: nat, b: bool)
      requires v < |asmts|
      modifies this
      ensures asmts == old(asmts)[v := Of(b)]
    {
      asmts := asmts[v := if b then VTrue else VFalse];
    }
  }

  // ----- Decision frames -----

  /**
   * `dpll_decision`: one frame of the decision stack, with the decided
   * variable (-1 for the sentinel), its current polarity, whether it has
   * been flipped, and the propagations made under it. The frames live by
   * value in a `std::vector`, so a frame is a value here; its two mutators
   * return the updated frame, and `std::set<dpll_propagation>`, ordered by
   * variable alone, becomes a map from variable to value.
   */
  datatype Decision = Decision(decisionVar: int, decisionAsmt: bool, hasBeenFlipped: bool, props: map<nat, bool>)
  {
    /** `add_propagation`: `emplace` adds the variable, keeping an entry already present for it. */
    function AddPropagation(v: nat, b: bool): (r: Decision)
      ensures r.decisionVar == decisionVar && r.decisionAsmt == decisionAsmt && r.hasBeenFlipped == hasBeenFlipped
      ensures r.props.Keys == props.Keys + {v}
      ensures forall u | u in props :: r.props[u] == props[u]
      ensures v !in props ==> r.props[v] == b
    {
      if v in props then this else this.(props := props[v := b])
    }

    /** `flip_decision`: invert the polarity, mark the frame flipped, forget its propagations. */
    function FlipDecision(): (r: Decision)
      ensures r.decisionVar == decisionVar && r.decisionAsmt == !decisionAsmt && r.hasBeenFlipped && r.props == map[]
    {
      this.(decisionAsmt := !decisionAsmt, hasBeenFlipped := true, props := map[])
    }
  }

  // ----- unit_propagate_all -----

  /** b assigns every variable a assigns, with the same value. */
  ghost predicate Grows(a: seq<VInterp>, b: seq<VInterp>) {
    |a| == |b| && forall v | 0 <= v < |a| && a[v] != VUndef :: b[v] == a[v]
  }

  /**
   * q is p after recording, `emplace` style, every variable assigned from a
   * to b: the keys are p's and the newly assigned variables; an entry
   * already in p keeps its polarity, a new one has the assigned value.
   */
  ghost predicate Records(p: map<nat, bool>, a: seq<VInterp>, b: seq<VInterp>, q: map<nat, bool>)
    requires |a| == |b|
  {
    && (forall v: nat :: v in q <==> v in p || (v < |a| && a[v] == VUndef && b[v] != VUndef))
    && (forall v | v in q && v !in p :: v < |b| && q[v] == (b[v] == VTrue))
    && (forall v | v in q && v in p :: q[v] == p[v])
  }

  lemma RecordsNothing(p: map<nat, bool>, a: seq<VInterp>)
    ensures Records(p, a, a, p)
  {
  }

  /** Recording an inner run and then one more variable records the whole run. */
  lemma RecordsStep(p: map<nat, bool>, a0: seq<VInterp>, v: nat, b: bool, c: seq<VInterp>, q: map<nat, bool>)
    requires v < |a0| && a0[v] == VUndef
    requires Grows(a0[v := Of(b)], c) && Records(p, a0[v := Of(b)], c, q)
    ensures Records(p, a0, c, if v in q then q else q[v := b])
  {
  }

  /** Assigning the forced literal of a unit clause loses no satisfying agreeing valuation. */
  lemma ForcedStep(cnf: seq<Clause>, a: seq<VInterp>)
    requires CnfIn(cnf, |a|) && FindUnitClause(cnf, a).Some?
    ensures var l := FindUnitClause(cnf, a).value.1;
      && l.v < |a| && a[l.v] == VUndef
      && forall val | Agrees(val, a) && CnfSat(val, cnf) :: Agrees(val, a[l.v := Of(l.isTrue)])
  {
    FindUnitClauseSpec(cnf, a);
    var (i, l) := FindUnitClause(cnf, a).value;
    forall val | Agrees(val, a) && CnfSat(val, cnf) ensures Agrees(val, a[l.v := Of(l.isTrue)]) {
      UnitForced(val, cnf[i], a);
    }
  }

  /**
   * What `unit_propagate_all` computes from interpretation a and recorded
   * propagations p: whether it succeeded, the interpretation it leaves and
   * the propagations of the frame. Each round assigns the literal of the
   * first `cunit` clause; a false clause, here or in a later round, undoes
   * the round's assignment and reports failure; on the way back out of a
   * successful run every assigned variable is added to the frame, the
   * innermost first, unless the frame already has an entry for it.
   */
  ghost function Propagation(cnf: seq<Clause>, a: seq<VInterp>, d: Decision): (bool, seq<VInterp>, Decision)
    requires CnfIn(cnf, |a|)
    decreases Unassigned(a)
  {
    FindUnitClauseSpec(cnf, a);
    var unit := FindUnitClause(cnf, a);
    if unit.None? then (true, a, d)
    else
      var l := unit.value.1;
      var a1 := a[l.v := Of(l.isTrue)];
      UnassignedAssign(a, l.v, Of(l.isTrue));
      if InterpretCnf(cnf, a1).0 == VFalse then (false, a, d)
      else
        var r := Propagation(cnf, a1, d);
        if !r.0 then (false, a, d)
        else (true, r.1, r.2.AddPropagation(l.v, l.isTrue))
  }

  /**
   * A failed propagation leaves the interpretation and the frame as they
   * were; a successful one only assigns unassigned variables and leaves no
   * clause `cunit`.
   */
  lemma {:induction false} PropagationGrows(cnf: seq<Clause>, a: seq<VInterp>, d: Decision)
    requires CnfIn(cnf, |a|)
    ensures var r := Propagation(cnf, a, d);
      && |r.1| == |a|
      && r.2.decisionVar == d.decisionVar && r.2.decisionAsmt == d.decisionAsmt && r.2.hasBeenFlipped == d.hasBeenFlipped
      && (!r.0 ==> r.1 == a && r.2 == d)
      && (r.0 ==> Grows(a, r.1) && FindUnitClause(cnf, r.1).None?)
    decreases Unassigned(a)
  {
    FindUnitClauseSpec(cnf, a);
    if FindUnitClause(cnf, a).Some? {
      var l := FindUnitClause(cnf, a).value.1;
      var a1 := a[l.v := Of(l.isTrue)];
      UnassignedAssign(a, l.v, Of(l.isTrue));
      if InterpretCnf(cnf, a1).0 != VFalse {
        PropagationGrows(cnf, a1, d);
      }
    }
  }

  /** A successful propagation adds to the frame exactly the variables it assigned, `emplace` style. */
  lemma {:induction false} PropagationRecords(cnf: seq<Clause>, a: seq<VInterp>, d: Decision)
    requires CnfIn(cnf, |a|)
    ensures var r := Propagation(cnf, a, d);
      r.0 ==> |r.1| == |a| && Records(d.props, a, r.1, r.2.props)
    decreases Unassigned(a)
  {
    FindUnitClauseSpec(cnf, a);
    if FindUnitClause(cnf, a).None? {
      RecordsNothing(d.props, a);
    } else {
      var l := FindUnitClause(cnf, a).value.1;
      var a1 := a[l.v := Of(l.isTrue)];
      UnassignedAssign(a, l.v, Of(l.isTrue));
      if InterpretCnf(cnf, a1).0 != VFalse {
        var r := Propagation(cnf, a1, d);
        PropagationGrows(cnf, a1, d);
        PropagationRecords(cnf, a1, d);
        if r.0 {
          RecordsStep(d.props, a, l.v, l.isTrue, r.1, r.2.props);
        }
      }
    }
  }

  /**
   * Propagation is sound: a failure means no valuation agreeing with the
   * entry interpretation satisfies the clauses, and a success assigns only
   * forced values, so every satisfying valuation that agreed before still
   * agrees.
   */
  lemma {:induction false} PropagationSound(cnf: seq<Clause>, a: seq<VInterp>, d: Decision)
    requires CnfIn(cnf, |a|)
    ensures var r := Propagation(cnf, a, d);
      && (!r.0 ==> forall val | Agrees(val, a) :: !CnfSat(val, cnf))
      && (r.0 ==> forall val | Agrees(val, a) && CnfSat(val, cnf) :: Agrees(val, r.1))
    decreases Unassigned(a)
  {
    FindUnitClauseSpec(cnf, a);
    if FindUnitClause(cnf, a).Some? {
      var l := FindUnitClause(cnf, a).value.1;
      var a1 := a[l.v := Of(l.isTrue)];
      ForcedStep(cnf, a);
      UnassignedAssign(a, l.v, Of(l.isTrue));
      if InterpretCnf(cnf, a1).0 == VFalse {
        forall val | Agrees(val, a1) ensures !CnfSat(val, cnf) {
          CnfFalseFails(val, cnf, a1);
        }
      } else {
        PropagationSound(cnf, a1, d);
      }
    }
  }

  /**
   * `unit_propagate_all`: the outcome, the new interpretation and the
   * updated frame (the C++ reference parameter `dec`) are those of
   * `Propagation`.
   */
  method UnitPropagateAll(cnf: CNF, I: Interp, dec: Decision) returns (ok: bool, dec': Decision)
    requires CnfIn(cnf.clauses, |I.asmts|)
    modifies I
    ensures var r := Propagation(cnf.clauses, old(I.asmts), dec);
      ok == r.0 && I.asmts == r.1 && dec' == r.2
    decreases Unassigned(I.asmts)
  {
    FindUnitClauseSpec(cnf.clauses, I.asmts);
    var unit := FindUnitClause(cnf.clauses, I.asmts);
    if unit.None? {
      return true, dec;
    }
    var lit := unit.value.1;
    ghost var a0 := I.asmts;
    I.Assign(lit.v, lit.isTrue);
    UnassignedAssign(a0, lit.v, Of(lit.isTrue));
    var conflict := false;
    dec' := dec;
    var value := InterpretCnf(cnf.clauses, I.asmts);
    if value.0 == VFalse {
      conflict := true;
    } else {
      var sub;
      sub, dec' := UnitPropagateAll(cnf, I, dec);
      conflict := !sub;
    }
    if conflict {
      I.Update(lit.v, VUndef);
      assert I.asmts == a0;
      return false, dec;
    }
    dec' := dec'.AddPropagation(lit.v, lit.isTrue);
    return true, dec';
  }

  // ----- Backtracking -----

  /** The decision variables of a run of frames. */
  function VarsOf(ds: seq<Decision>): (r: seq<int>)
    ensures |r| == |ds| && forall i | 0 <= i < |ds| :: r[i] == ds[i].decisionVar
  {
    seq(|ds|, i requires 0 <= i < |ds| => ds[i].decisionVar)
  }

  /** The interpretation with every variable of vs made unassigned. */
  function Cleared(a: seq<VInterp>, vs: seq<int>): (r: seq<VInterp>)
    ensures |r| == |a| && forall v | 0 <= v < |a| :: r[v] == if v in vs then VUndef else a[v]
  {
    seq(|a|, v requires 0 <= v < |a| => if v in vs then VUndef else a[v])
  }

  lemma ClearedCons(a: seq<VInterp>, x: int, vs: seq<int>)
    requires 0 <= x < |a|
    ensures Cleared(a, [x] + vs) == Cleared(a, vs)[x := VUndef]
  {
  }

  /**
   * The backtracking loop of `dpll_main`: pops the frames above the last
   * unflipped one, making their decision variables unassigned, then flips
   * that frame and re-applies its decision. It never pops the sentinel at
   * index 0, and fails exactly when every other frame is already flipped.
   */
  method Backtrack(decisions: seq<Decision>, I: Interp) returns (ok: bool, rest: seq<Decision>)
    requires |decisions| >= 1
    requires forall i | 1 <= i < |decisions| :: 0 <= decisions[i].decisionVar < |I.asmts|
    modifies I
    ensures 1 <= |rest| <= |decisions| && rest[..|rest| - 1] == decisions[..|rest| - 1]
    ensures ok <==> exists i | 1 <= i < |decisions| :: !decisions[i].hasBeenFlipped
    ensures forall i | |rest| <= i < |decisions| :: decisions[i].hasBeenFlipped
    ensures !ok ==> rest == decisions[..1]
    ensures ok ==> var k := |rest| - 1;
      && k >= 1 && !decisions[k].hasBeenFlipped && rest == decisions[..k] + [decisions[k].FlipDecision()]
    ensures var c, k := Cleared(old(I.asmts), VarsOf(decisions[|rest|..])), |rest| - 1;
      I.asmts == if ok then c[decisions[k].decisionVar := Of(!decisions[k].decisionAsmt)] else c
  {
    rest := decisions;
    ok := false;
    assert decisions[|rest|..] == [];
    while |rest| > 1
      invariant 1 <= |rest| <= |decisions| && rest == decisions[..|rest|]
      invariant forall i | |rest| <= i < |decisions| :: decisions[i].hasBeenFlipped
      invariant I.asmts == Cleared(old(I.asmts), VarsOf(decisions[|rest|..]))
      decreases |rest|
    {
      var last := rest[|rest| - 1];
      if !last.hasBeenFlipped {
        last := last.FlipDecision();
        rest := rest[|rest| - 1 := last];
        ok := true;
        I.Assign(last.decisionVar, last.decisionAsmt);
        return;
      }
      I.Update(last.decisionVar, VUndef);
      assert decisions[|rest| - 1..] == [last] + decisions[|rest|..];
      ClearedCons(old(I.asmts), last.decisionVar, VarsOf(decisions[|rest|..]));
      assert VarsOf(decisions[|rest| - 1..]) == [last.decisionVar] + VarsOf(decisions[|rest|..]);
      rest := rest[..|rest| - 1];
    }
  }

  // ----- Termination of the search -----

  function Pow3(n: nat): (r: nat)
    ensures r >= 1
  {
    if n == 0 then 1 else 3 * Pow3(n - 1)
  }

  /**
   * The flip flags of the non-sentinel frames read as base-3 digits
   * (2 flipped, 1 unflipped, 0 absent), most significant first. Every
   * round of `dpll_main` makes it grow.
   */
  function Weight(flips: seq<bool>, n: nat): nat
    requires |flips| <= n
  {
    if flips == [] then 0 else (if flips[0] then 2 else 1) * Pow3(n - 1) + Weight(flips[1..], n - 1)
  }

  lemma {:induction false} WeightBound(flips: seq<bool>, n: nat)
    requires |flips| <= n
    ensures Weight(flips, n) < Pow3(n)
  {
    if flips != [] {
      WeightBound(flips[1..], n - 1);
    }
  }

  lemma {:induction false} WeightAppend(p: seq<bool>, q: seq<bool>, n: nat)
    requires |p| + |q| <= n
    ensures Weight(p + q, n) == Weight(p, n) + Weight(q, n - |p|)
  {
    if p != [] {
      assert (p + q)[1..] == p[1..] + q;
      WeightAppend(p[1..], q, n - 1);
    } else {
      assert p + q == q;
    }
  }

  /** Deciding pushes an unflipped frame. */
  lemma PushGrows(flips: seq<bool>, n: nat)
    requires |flips| < n
    ensures Weight(flips + [false], n) > Weight(flips, n)
  {
    WeightAppend(flips, [false], n);
  }

  /** Backtracking replaces an unflipped frame and everything above it by one flipped frame. */
  lemma FlipGrows(p: seq<bool>, q: seq<bool>, n: nat)
    requires |p| + 1 + |q| <= n
    ensures Weight(p + [true], n) > Weight(p + [false] + q, n)
  {
    WeightAppend(p, [true], n);
    assert p + [false] + q == p + ([false] + q);
    WeightAppend(p, [false] + q, n);
    WeightBound(q, n - |p| - 1);
    assert ([false] + q)[1..] == q;
  }

  /** Distinct values below n number at most n. */
  lemma {:induction false} DistinctBound(vs: seq<int>, n: nat)
    requires forall i | 0 <= i < |vs| :: 0 <= vs[i] < n
    requires forall i, j | 0 <= i < j < |vs| :: vs[i] != vs[j]
    ensures |vs| <= n
  {
    if vs == [] {
    } else if k :| 0 <= k < |vs| && vs[k] == n - 1 {
      var ws := vs[..k] + vs[k + 1..];
      assert forall i | 0 <= i < |ws| :: ws[i] == if i < k then vs[i] else vs[i + 1];
      DistinctBound(ws, n - 1);
    } else {
      assert 0 <= vs[0] < n;
      DistinctBound(vs, n - 1);
    }
  }

  // ----- dpll_main and dpll_sat -----

  /** Propagation and decision have nothing left to do: every clause is `ctrue` or `cfalse`. */
  predicate Settled(cnf: seq<Clause>, a: seq<VInterp>)
    requires CnfIn(cnf, |a|)
  {
    FindUnitClause(cnf, a).None? && Decide(cnf, a).None?
  }

  /** The flip flags of the frames above the sentinel. */
  function Flips(ds: seq<Decision>): (r: seq<bool>)
    requires |ds| >= 1
    ensures |r| == |ds| - 1 && forall i | 0 <= i < |r| :: r[i] == ds[i + 1].hasBeenFlipped
  {
    seq(|ds| - 1, i requires 0 <= i < |ds| - 1 => ds[i + 1].hasBeenFlipped)
  }

  /**
   * The invariant of the decision stack in `dpll_main`: the sentinel comes
   * first, the other frames' variables are distinct and assigned, so there
   * are at most n of them.
   */
  ghost predicate StackOk(ds: seq<Decision>, a: seq<VInterp>, n: nat) {
    && |a| == n && |ds| >= 1 && |ds| - 1 <= n && ds[0].decisionVar == -1
    && (forall i | 1 <= i < |ds| :: 0 <= ds[i].decisionVar < n && a[ds[i].decisionVar] != VUndef)
    && (forall i, j | 1 <= i < j < |ds| :: ds[i].decisionVar != ds[j].decisionVar)
  }

  /** Propagation assigns more variables and keeps the top frame's variable and flag. */
  lemma PropagatedStack(ds: seq<Decision>, a0: seq<VInterp>, ds': seq<Decision>, a: seq<VInterp>, n: nat)
    requires StackOk(ds, a0, n) && Grows(a0, a)
    requires |ds'| == |ds| && ds'[..|ds| - 1] == ds[..|ds| - 1]
    requires ds'[|ds| - 1].decisionVar == ds[|ds| - 1].decisionVar
    requires ds'[|ds| - 1].hasBeenFlipped == ds[|ds| - 1].hasBeenFlipped
    ensures StackOk(ds', a, n) && Flips(ds') == Flips(ds)
  {
    assert forall i | 0 <= i < |ds| - 1 :: ds'[i] == ds[i];
  }

  /** Backtracking to the unflipped frame k keeps the invariant and makes the measure grow. */
  lemma BacktrackedStack(ds: seq<Decision>, a0: seq<VInterp>, rest: seq<Decision>, a: seq<VInterp>, n: nat)
    requires StackOk(ds, a0, n) && 2 <= |rest| <= |ds|
    requires var k := |rest| - 1;
      && !ds[k].hasBeenFlipped && rest == ds[..k] + [ds[k].FlipDecision()]
      && a == Cleared(a0, VarsOf(ds[k + 1..]))[ds[k].decisionVar := Of(!ds[k].decisionAsmt)]
    ensures StackOk(rest, a, n)
    ensures Weight(Flips(rest), n) > Weight(Flips(ds), n)
  {
    var k := |rest| - 1;
    var popped := VarsOf(ds[k + 1..]);
    forall i | 1 <= i < k ensures ds[i].decisionVar !in popped {
      assert forall j | 0 <= j < |popped| :: popped[j] == ds[k + 1 + j].decisionVar;
    }
    var flips := Flips(ds);
    assert Flips(rest) == flips[..k - 1] + [true];
    FlipGrows(flips[..k - 1], flips[k..], n);
    assert flips == flips[..k - 1] + [false] + flips[k..];
  }

  /** Pushing a frame for an unassigned variable and assigning it keeps the invariant and makes the measure grow. */
  lemma DecidedStack(ds: seq<Decision>, a0: seq<VInterp>, v: nat, b: bool, n: nat)
    requires StackOk(ds, a0, n) && v < |a0| && a0[v] == VUndef
    ensures StackOk(ds + [Decision(v, b, false, map[])], a0[v := Of(b)], n)
    ensures Weight(Flips(ds + [Decision(v, b, false, map[])]), n) > Weight(Flips(ds), n)
  {
    var ds' := ds + [Decision(v, b, false, map[])];
    var ws := VarsOf(ds'[1..]);
    DistinctBound(ws, n);
    assert Flips(ds') == Flips(ds) + [false];
    PushGrows(Flips(ds), n);
  }

  lemma DecideUnassigned(cnf: seq<Clause>, a: seq<VInterp>)
    requires CnfIn(cnf, |a|) && Decide(cnf, a).Some?
    ensures Decide(cnf, a).value.v < |a| && a[Decide(cnf, a).value.v] == VUndef
  {
    DecideSpec(cnf, a);
  }

  // ----- sat_interp_to_assignment -----

  /** The total assignment read off an interpretation: unassigned variables become true. */
  function Completion(a: seq<VInterp>): (r: seq<bool>)
    ensures |r| == |a|
  {
    seq(|a|, v requires 0 <= v < |a| => a[v] != VFalse)
  }

  /** A total assignment as a valuation; variables beyond it are false. */
  ghost function ValOf(bs: seq<bool>): nat -> bool {
    (v: nat) => v < |bs| && bs[v]
  }

  /** The completion keeps every value the interpretation defines, and makes every variable defined. */
  lemma CompletionAgrees(a: seq<VInterp>)
    ensures Agrees(ValOf(Completion(a)), a)
    ensures forall v | 0 <= v < |a| :: Completion(a)[v] == (a[v] == VTrue || a[v] == VUndef)
  {
  }

  /** `sat_interp_to_assignment`: appends the completion of the interpretation to `asmt`. */
  method SatInterpToAssignment(I: Interp, asmt: seq<bool>) returns (asmt': seq<bool>)
    ensures asmt' == asmt + Completion(I.asmts)
  {
    asmt' := asmt;
    var numVars := |I.asmts|;
    for i := 0 to numVars
      invariant asmt' == asmt + Completion(I.asmts)[..i]
    {
      match I.asmts[i]
      case VTrue => asmt' := asmt' + [true];
      case VFalse => asmt' := asmt' + [false];
      case VUndef => asmt' := asmt' + [true];
      assert Completion(I.asmts)[..i + 1] == Completion(I.asmts)[..i] + [Completion(I.asmts)[i]];
    }
    assert Completion(I.asmts)[..numVars] == Completion(I.asmts);
  }

  /**
   * When propagation and decision have nothing left to do, every clause is
   * `ctrue` or `cfalse`, so the completion satisfies the clauses exactly
   * when `interpret_cnf` says `vtrue`; otherwise some clause is false under
   * every agreeing valuation.
   */
  lemma SettledVerdict(cnf: seq<Clause>, a: seq<VInterp>)
    requires CnfIn(cnf, |a|) && Settled(cnf, a)
    ensures InterpretCnf(cnf, a).0 != VUndef
    ensures CnfSat(ValOf(Completion(a)), cnf) <==> InterpretCnf(cnf, a).0 == VTrue
    ensures InterpretCnf(cnf, a).0 == VFalse ==> forall val | Agrees(val, a) :: !CnfSat(val, cnf)
  {
    FindUnitClauseSpec(cnf, a);
    DecideSpec(cnf, a);
    InterpretCnfSpec(cnf, a);
    CompletionAgrees(a);
    var r := InterpretCnf(cnf, a).0;
    if r != VTrue {
      var j :| 0 <= j < |cnf| && !ClauseIs(cnf, a, j, CTrue);
      assert ClauseIs(cnf, a, j, CFalse) by {
        assert !ClauseIs(cnf, a, j, CUnit) && !ClauseIs(cnf, a, j, CUndef);
      }
    }
    if r == VTrue {
      CnfTrueHolds(ValOf(Completion(a)), cnf, a);
    } else {
      forall val | Agrees(val, a) ensures !CnfSat(val, cnf) {
        CnfFalseFails(val, cnf, a);
      }
    }
  }

  /**
   * The empty clause alone: with no variables there is no unit clause and
   * nothing to decide, so the state is settled although the clause is false.
   */
  lemma EmptyClauseSettled()
    ensures Settled([[]], []) && InterpretCnf([[]], []).0 == VFalse
  {
  }

  /**
   * `(!x|!x) & (x|x)`: neither clause is unit while x is unassigned, the
   * decision sets x false to satisfy the first, and the state is then
   * settled with `(x|x)` false, since no unit clause triggers a re-check.
   */
  lemma DecisionFalsifiesSettled()
    ensures var c := [[Literal(0, false), Literal(0, false)], [Literal(0, true), Literal(0, true)]];
      && FindUnitClause(c, [VUndef]).None? && Decide(c, [VUndef]) == Some(Literal(0, false))
      && Settled(c, [VFalse]) && InterpretCnf(c, [VFalse]).0 == VFalse
  {
  }

  /**
   * `dpll_main`: propagate, backtrack on conflict, otherwise decide the first
   * undefined literal of the first `cundef` clause, until nothing is left to
   * decide (true) or backtracking runs out of unflipped frames (false).
   */
  method DpllMain(cnf: CNF, I: Interp) returns (sat: bool)
    requires CnfIn(cnf.clauses, |I.asmts|)
    modifies I
    ensures |I.asmts| == |old(I.asmts)|
    ensures sat ==> Settled(cnf.clauses, I.asmts)
  {
    ghost var n := |I.asmts|;
    var decisions := [Decision(-1, true, false, map[])];
    while true
      invariant CnfIn(cnf.clauses, n)
      invariant StackOk(decisions, I.asmts, n)
      decreases Pow3(n) - Weight(Flips(decisions), n)
    {
      WeightBound(Flips(decisions), n);
      ghost var a0 := I.asmts;
      var top := decisions[|decisions| - 1];
      var canPropagate, top' := UnitPropagateAll(cnf, I, top);
      PropagationGrows(cnf.clauses, a0, top);
      if !canPropagate {
        var backtracked, rest := Backtrack(decisions, I);
        if !backtracked {
          return false;
        }
        BacktrackedStack(decisions, a0, rest, I.asmts, n);
        decisions := rest;
        continue;
      }
      PropagatedStack(decisions, a0, decisions[|decisions| - 1 := top'], I.asmts, n);
      decisions := decisions[|decisions| - 1 := top'];
      var choice := Decide(cnf.clauses, I.asmts);
      if choice.None? {
        break;
      }
      DecideUnassigned(cnf.clauses, I.asmts);
      var lit := choice.value;
      DecidedStack(decisions, I.asmts, lit.v, lit.isTrue, n);
      decisions := decisions + [Decision(lit.v, lit.isTrue, false, map[])];
      I.Assign(lit.v, lit.isTrue);
    }
    return true;
  }

  /**
   * `dpll_sat`: runs the search on a fresh interpretation of `numVars`
   * variables and, on success, appends the completion of the final
   * interpretation to `result`, which is otherwise untouched.
   */
  method DpllSat(cnf: CNF, numVars: nat, result: seq<bool>) returns (sat: bool, result': seq<bool>)
    requires CnfIn(cnf.clauses, numVars)
    ensures !sat ==> result' == result
    ensures sat ==> exists a :: |a| == numVars && Settled(cnf.clauses, a) && result' == result + Completion(a)
  {
    var I := new Interp(numVars);
    sat := DpllMain(cnf, I);
    result' := result;
    if sat {
      result' := SatInterpToAssignment(I, result);
    }
  }
}
