/**
 * `parse_formula` and `parse_var` of src/parser.cpp.
 *
 * The C++ parser keeps a stack of records, each holding a pointer to the child
 * slot (`Formula **`) that the next operand is written into. Here a slot is a
 * path from the root: `Down` enters the operand of a `Negated`, `Right` the
 * right operand of a `Binary`. Every record's path extends the paths of the
 * records below it, so a record never points into a subtree that a later
 * `Binary` wrap moves, and the paths name the same slots as the pointers.
 */
module Parser {
  import opened Formulas
  import opened VarTables

  datatype Dir = Down | Right

  /** `p` leads from `t` through `Negated` and `Binary` nodes to some slot. */
  predicate ValidSlot(t: Formula, p: seq<Dir>)
    decreases p
  {
    p == [] ||
    match p[0]
    case Down => t.Negated? && ValidSlot(t.f, p[1..])
    case Right => t.Binary? && ValidSlot(t.r, p[1..])
  }

  /** The subtree in slot `p`. */
  function At(t: Formula, p: seq<Dir>): Formula
    requires ValidSlot(t, p)
    decreases p
  {
    if p == [] then t
    else match p[0]
      case Down => At(t.f, p[1..])
      case Right => At(t.r, p[1..])
  }

  /** `*fp = x`: the tree with slot `p` overwritten by `x`. */
  function ReplaceAt(t: Formula, p: seq<Dir>, x: Formula): (r: Formula)
    requires ValidSlot(t, p)
    ensures ValidSlot(r, p) && At(r, p) == x
    decreases p
  {
    if p == [] then x
    else match p[0]
      case Down => Negated(ReplaceAt(t.f, p[1..], x))
      case Right => Binary(t.l, ReplaceAt(t.r, p[1..], x), t.op)
  }

  /** Every slot on the way to a slot is a slot. */
  lemma {:induction false} SlotPrefix(t: Formula, p: seq<Dir>, q: seq<Dir>)
    requires ValidSlot(t, p) && q <= p
    ensures ValidSlot(t, q)
    decreases p
  {
    if q != [] {
      assert q[0] == p[0] && q[1..] <= p[1..];
      match p[0]
      case Down => SlotPrefix(t.f, p[1..], q[1..]);
      case Right => SlotPrefix(t.r, p[1..], q[1..]);
    }
  }

  /** Writing into a slot of a freshly written subtree is writing into that subtree. */
  lemma {:induction false} ReplaceCompose(t: Formula, p: seq<Dir>, x: Formula, q: seq<Dir>, y: Formula)
    requires ValidSlot(t, p) && ValidSlot(x, q)
    ensures ValidSlot(ReplaceAt(t, p, x), p + q)
    ensures ReplaceAt(ReplaceAt(t, p, x), p + q, y) == ReplaceAt(t, p, ReplaceAt(x, q, y))
    decreases p
  {
    if p == [] {
      assert p + q == q;
    } else {
      assert (p + q)[0] == p[0] && (p + q)[1..] == p[1..] + q;
      match p[0]
      case Down => ReplaceCompose(t.f, p[1..], x, q, y);
      case Right => ReplaceCompose(t.r, p[1..], x, q, y);
    }
  }

  /** A second write to the same slot discards the first. */
  lemma {:induction false} ReplaceTwice(t: Formula, p: seq<Dir>, x: Formula, y: Formula)
    requires ValidSlot(t, p)
    ensures ReplaceAt(ReplaceAt(t, p, x), p, y) == ReplaceAt(t, p, y)
    decreases p
  {
    if p != [] {
      match p[0]
      case Down => ReplaceTwice(t.f, p[1..], x, y);
      case Right => ReplaceTwice(t.r, p[1..], x, y);
    }
  }

  /** `struct record`: a slot, the parenthesis depth it was made at, and `quick_backtrack`. */
  datatype Record = Record(slot: seq<Dir>, depth: int, quick: bool)

  /** Each of the two records `parse_formula` starts with points at `root`. */
  const Boot: Record := Record([], 0, false)

  function Top(stack: seq<Record>): Record
    requires |stack| > 0
  {
    stack[|stack| - 1]
  }

  function Pop(stack: seq<Record>): seq<Record>
    requires |stack| > 0
  {
    stack[..|stack| - 1]
  }

  /** The `while` of "clean up negations": pops the quick records made at depth `d` or deeper. */
  function PopQuick(stack: seq<Record>, d: int): (r: seq<Record>)
    ensures r <= stack
    ensures forall i | |r| <= i < |stack| :: stack[i].quick && d <= stack[i].depth
    ensures r == [] || !Top(r).quick || Top(r).depth < d
    decreases |stack|
  {
    if |stack| > 0 && d <= Top(stack).depth && Top(stack).quick then PopQuick(Pop(stack), d)
    else stack
  }

  /** "Move back up" once an operand or `)` has closed everything down to depth `d`. */
  function Cleanup(stack: seq<Record>, d: int): (r: seq<Record>)
    ensures r <= stack
  {
    var t := PopQuick(stack, d);
    if |t| > 0 && d <= Top(t).depth then Pop(t) else t
  }

  /**
   * Above the bottom record, depths never decrease, and a record made at the
   * same depth as one below it is a quick (negation) record.
   */
  predicate Layered(stack: seq<Record>) {
    forall i, j | 1 <= i < j < |stack| ::
      stack[i].depth <= stack[j].depth && (stack[i].depth == stack[j].depth ==> stack[j].quick)
  }

  /** Each record's slot lies on the path to the slots of the records above it. */
  predicate Chained(stack: seq<Record>) {
    forall i, j | 0 <= i < j < |stack| :: stack[i].slot <= stack[j].slot
  }

  /**
   * The stack between tokens. When an expression is expected there is a
   * record above the bootstrap one and none is deeper than `depth`; when a
   * connective is expected every record above the bootstrap one is shallower
   * than `depth`, and there is one exactly when `depth > 0`.
   */
  predicate StackShape(stack: seq<Record>, depth: int, expectExpr: bool) {
    && |stack| >= 1 && stack[0] == Boot && depth >= 0
    && Layered(stack) && Chained(stack)
    && (|stack| > 1 ==> !stack[1].quick && stack[1].depth == 0)
    && if expectExpr then
         |stack| > 1 && forall i | 1 <= i < |stack| :: stack[i].depth <= depth
       else
         (depth == 0 <==> |stack| == 1) && forall i | 1 <= i < |stack| :: stack[i].depth < depth
  }

  lemma PrefixShape(stack: seq<Record>, r: seq<Record>)
    requires Layered(stack) && Chained(stack) && r <= stack
    ensures Layered(r) && Chained(r)
    ensures forall i | 0 <= i < |r| :: r[i] == stack[i]
  {
  }

  /**
   * After an operand, or a `)` that brings the depth down to `d`, the pops
   * leave the bootstrap record in place and leave the stack in the shape
   * expected before a connective at depth `d` (the `assert`s of
   * `parse_formula` never fail).
   */
  lemma CleanupShape(stack: seq<Record>, d: int)
    requires |stack| >= 2 && stack[0] == Boot && d >= 0
    requires Layered(stack) && Chained(stack)
    requires !stack[1].quick && stack[1].depth == 0
    requires forall i | 1 <= i < |stack| :: stack[i].depth <= d
    ensures StackShape(Cleanup(stack, d), d, false)
  {
    var t := PopQuick(stack, d);
    PrefixShape(stack, t);
    if |t| < 2 {
      assert false;
    }
    if d <= Top(t).depth {
      CleanupPopsShape(t, d);
    } else {
      CleanupKeepsShape(t, d);
    }
  }

  /** The pops end on a record at depth `d` or deeper: it is the one `)` or the operand closes. */
  lemma CleanupPopsShape(t: seq<Record>, d: int)
    requires |t| >= 2 && t[0] == Boot && d >= 0
    requires Layered(t) && Chained(t)
    requires !t[1].quick && t[1].depth == 0
    requires forall i | 1 <= i < |t| :: t[i].depth <= d
    requires !Top(t).quick || Top(t).depth < d
    requires d <= Top(t).depth
    ensures StackShape(Pop(t), d, false)
  {
    var k := |t| - 1;
    var r := Pop(t);
    PrefixShape(t, r);
    assert !t[k].quick;
    forall i | 1 <= i < k ensures r[i].depth < d {
      assert t[i].depth <= t[k].depth;
    }
    if d == 0 && k > 1 {
      assert false;
    }
    if d > 0 && k == 1 {
      assert false;
    }
  }

  /** The pops end on a record shallower than `d`: nothing more is popped. */
  lemma CleanupKeepsShape(t: seq<Record>, d: int)
    requires |t| >= 2 && t[0] == Boot && d >= 0
    requires Layered(t) && Chained(t)
    requires !t[1].quick && t[1].depth == 0
    requires forall i | 1 <= i < |t| :: t[i].depth <= d
    requires Top(t).depth < d
    ensures StackShape(t, d, false)
  {
    var k := |t| - 1;
    forall i | 1 <= i < |t| ensures t[i].depth < d {
      assert t[i].depth <= t[k].depth;
    }
  }

  /**
   * The trees the parser builds: no `Invalid` node, and every variable is a
   * token whose id maps back to its name in `n`.
   */
  ghost predicate WellFormed(t: Formula, n: Names) {
    match t
    case Hole => true
    case Invalid(_, _) => false
    case Variable(id, name) => IsVarName(name) && id < |n.rmap| && n.rmap[id] == name
    case Negated(g) => WellFormed(g, n)
    case Binary(l, r, _) => WellFormed(l, n) && WellFormed(r, n)
  }

  lemma {:induction false} WellFormedExtends(t: Formula, a: Names, b: Names)
    requires WellFormed(t, a) && b.Extends(a)
    ensures WellFormed(t, b)
  {
    match t
    case Hole =>
    case Invalid(_, _) =>
    case Variable(id, name) =>
      assert a.rmap <= b.rmap;
    case Negated(g) => WellFormedExtends(g, a, b);
    case Binary(l, r, _) =>
      WellFormedExtends(l, a, b);
      WellFormedExtends(r, a, b);
  }

  lemma {:induction false} AtWellFormed(t: Formula, p: seq<Dir>, n: Names)
    requires ValidSlot(t, p) && WellFormed(t, n)
    ensures WellFormed(At(t, p), n)
    decreases p
  {
    if p != [] {
      match p[0]
      case Down => AtWellFormed(t.f, p[1..], n);
      case Right => AtWellFormed(t.r, p[1..], n);
    }
  }

  lemma {:induction false} ReplaceWellFormed(t: Formula, p: seq<Dir>, x: Formula, n: Names)
    requires ValidSlot(t, p) && WellFormed(t, n) && WellFormed(x, n)
    ensures WellFormed(ReplaceAt(t, p, x), n)
    decreases p
  {
    if p != [] {
      match p[0]
      case Down => ReplaceWellFormed(t.f, p[1..], x, n);
      case Right => ReplaceWellFormed(t.r, p[1..], x, n);
    }
  }

  /** The one `Hole` (null child) of `t` is its slot `p`. */
  predicate HoleOnlyAt(t: Formula, p: seq<Dir>): (b: bool)
    ensures b ==> ValidSlot(t, p) && !HoleFree(t)
    decreases p
  {
    if p == [] then t == Hole
    else match p[0]
      case Down => t.Negated? && HoleOnlyAt(t.f, p[1..])
      case Right => t.Binary? && HoleFree(t.l) && HoleOnlyAt(t.r, p[1..])
  }

  lemma {:induction false} FillHole(t: Formula, p: seq<Dir>, x: Formula)
    requires HoleOnlyAt(t, p) && HoleFree(x)
    ensures HoleFree(ReplaceAt(t, p, x))
    decreases p
  {
    if p != [] {
      match p[0]
      case Down => FillHole(t.f, p[1..], x);
      case Right => FillHole(t.r, p[1..], x);
    }
  }

  lemma {:induction false} MoveHole(t: Formula, p: seq<Dir>, x: Formula, q: seq<Dir>)
    requires HoleOnlyAt(t, p) && HoleOnlyAt(x, q)
    ensures HoleOnlyAt(ReplaceAt(t, p, x), p + q)
    decreases p
  {
    if p == [] {
      assert p + q == q;
    } else {
      assert (p + q)[0] == p[0] && (p + q)[1..] == p[1..] + q;
      match p[0]
      case Down => MoveHole(t.f, p[1..], x, q);
      case Right => MoveHole(t.r, p[1..], x, q);
    }
  }

  lemma {:induction false} OpenHole(t: Formula, p: seq<Dir>, x: Formula, q: seq<Dir>)
    requires HoleFree(t) && ValidSlot(t, p) && HoleOnlyAt(x, q)
    ensures HoleOnlyAt(ReplaceAt(t, p, x), p + q)
    decreases p
  {
    if p == [] {
      assert p + q == q;
    } else {
      assert (p + q)[0] == p[0] && (p + q)[1..] == p[1..] + q;
      match p[0]
      case Down => OpenHole(t.f, p[1..], x, q);
      case Right => OpenHole(t.r, p[1..], x, q);
    }
  }

  lemma {:induction false} AtHoleFree(t: Formula, p: seq<Dir>)
    requires HoleFree(t) && ValidSlot(t, p)
    ensures HoleFree(At(t, p))
    decreases p
  {
    if p != [] {
      match p[0]
      case Down => AtHoleFree(t.f, p[1..]);
      case Right => AtHoleFree(t.r, p[1..]);
    }
  }

  /** `t` is complete, or is missing exactly one operand. */
  ghost predicate AtMostOneHole(t: Formula) {
    HoleFree(t) || exists p :: HoleOnlyAt(t, p)
  }

  /** The locals of `parse_formula` between two tokens; `pos` is the offset of `f`. */
  datatype PState = PState(tree: Formula, stack: seq<Record>, depth: int, expectExpr: bool,
                           pos: nat, names: Names)

  /** `root` is null, two bootstrap records, depth 0, an expression expected. */
  const Init: PState := PState(Hole, [Boot, Boot], 0, true, 0, Empty)

  /**
   * What holds between tokens. While an expression is expected the tree's one
   * `Hole` is the slot on top of the stack; while a connective is expected
   * the tree has no `Hole`.
   */
  ghost predicate Inv(st: PState) {
    var holds :=
      && StackShape(st.stack, st.depth, st.expectExpr)
      && ValidSlot(st.tree, Top(st.stack).slot)
      && (st.expectExpr ==> HoleOnlyAt(st.tree, Top(st.stack).slot))
      && (!st.expectExpr ==> HoleFree(st.tree) && st.pos >= 1)
      && st.names.Valid() && WellFormed(st.tree, st.names);
    holds
  }

  lemma InitInv()
    ensures Inv(Init)
  {
    EmptyValid();
  }

  /** `*f`, where reading at or past `end` finds the terminating NUL. */
  function CharAt(s: string, i: nat): char {
    if i < |s| then s[i] else '\0'
  }

  /** The offset just past the run of variable characters starting at `i`. */
  function VarEnd(s: string, i: nat): (j: nat)
    ensures i <= j && (i <= |s| ==> j <= |s|)
    ensures forall k | i <= k < j :: k < |s| && IsVarChar(s[k])
    ensures !IsVarChar(CharAt(s, j))
    decreases |s| - i
  {
    if i < |s| && IsVarChar(s[i]) then VarEnd(s, i + 1) else i
  }

  /** `!`: a `Negated` with a null operand goes in the top slot, and a quick record for its operand is pushed. */
  function Negate(st: PState): PState
    requires |st.stack| > 0 && ValidSlot(st.tree, Top(st.stack).slot)
  {
    var p := Top(st.stack).slot;
    st.(tree := ReplaceAt(st.tree, p, Negated(Hole)),
        stack := st.stack + [Record(p + [Down], st.depth, true)],
        pos := st.pos + 1)
  }

  /** An operand `x` goes in the top slot and the stack moves back up; a connective is expected next. */
  function Operand(st: PState, x: Formula, names: Names, next: nat): PState
    requires |st.stack| > 0 && ValidSlot(st.tree, Top(st.stack).slot)
  {
    st.(tree := ReplaceAt(st.tree, Top(st.stack).slot, x),
        stack := Cleanup(st.stack, st.depth),
        expectExpr := false, pos := next, names := names)
  }

  /** `)`: one level up, and the stack moves back up to it. */
  function Close(st: PState): PState {
    st.(depth := st.depth - 1, stack := Cleanup(st.stack, st.depth - 1), pos := st.pos + 1)
  }

  /**
   * A binary connective: the top slot's operand becomes the left operand of
   * a `Binary` with a null right operand, whose slot is pushed.
   */
  function Wrap(st: PState, op: Connective, next: nat): PState
    requires |st.stack| > 0 && ValidSlot(st.tree, Top(st.stack).slot)
  {
    var p := Top(st.stack).slot;
    st.(tree := ReplaceAt(st.tree, p, Binary(At(st.tree, p), Hole, op)),
        stack := st.stack + [Record(p + [Right], st.depth, false)],
        expectExpr := true, pos := next)
  }

  /** A scanned binary connective and the offset of its last character, or the error return. */
  datatype Scanned = Token(op: Connective, last: nat) | Bad(errorPos: nat, expects: char)

  /**
   * The `switch` on a binary connective at `i`: the token is exactly the
   * symbol of the connective it returns, every symbol is recognised, and an
   * error points at the first character that does not fit.
   */
  function ScanConnective(s: string, i: nat): (r: Scanned)
    requires i < |s|
    ensures r.Token? ==> i <= r.last < |s| && s[i..r.last + 1] == Symbol(r.op)
    ensures r.Bad? ==> i <= r.errorPos <= i + 2 && r.errorPos <= |s| && r.expects in "c->"
  {
    var c := CharAt(s, i);
    if c == '&' then Token(And, i)
    else if c == '|' then Token(Or, i)
    else if c == '<' then
      if CharAt(s, i + 1) != '-' then Bad(i + 1, '-')
      else if CharAt(s, i + 2) != '>' then Bad(i + 2, '>')
      else Token(Equiv, i + 2)
    else if c == '-' then
      if CharAt(s, i + 1) != '>' then Bad(i + 1, '>')
      else Token(Imply, i + 1)
    else Bad(i, 'c')
  }

  /** Every connective symbol at `i` is scanned as that connective. */
  lemma ScanRecognises(s: string, i: nat, op: Connective)
    requires i < |s| && Symbol(op) <= s[i..]
    ensures ScanConnective(s, i) == Token(op, i + |Symbol(op)| - 1)
  {
    var t := Symbol(op);
    assert forall k | 0 <= k < |t| :: s[i + k] == t[k] by {
      forall k | 0 <= k < |t| ensures s[i + k] == t[k] {
        assert s[i..][k] == t[k];
      }
    }
    if |t| > 1 {
      assert CharAt(s, i + 1) == t[1];
    }
    if |t| > 2 {
      assert CharAt(s, i + 2) == t[2];
    }
  }

  /** The result of one turn of the main loop: the next state, or an error return. */
  datatype Next = Continue(next: PState) | Fail(errorPos: nat, expects: char)

  /** One turn of the `while` of `parse_formula`, on the character at `st.pos`. */
  function Step(s: string, st: PState): Next
    requires Inv(st) && CharAt(s, st.pos) != '\0'
  {
    var c := CharAt(s, st.pos);
    if c == ' ' then Continue(st.(pos := st.pos + 1))
    else if st.expectExpr then
      if c == '!' then Continue(Negate(st))
      else if c == '(' then Continue(st.(depth := st.depth + 1, pos := st.pos + 1))
      else if !IsVarChar(c) then Fail(st.pos, 'e')
      else
        var j := VarEnd(s, st.pos);
        var name := s[st.pos..j];
        var (names, id) := Interned(st.names, name);
        Continue(Operand(st, Variable(id, name), names, j))
    else if c == ')' then
      if st.depth - 1 < 0 then Fail(st.pos - 1, '(') else Continue(Close(st))
    else match ScanConnective(s, st.pos)
      case Bad(e, x) => Fail(e, x)
      case Token(op, last) => Continue(Wrap(st, op, last + 1))
  }

  /** After a pop, the new top slot is still a slot of the (rewritten) tree. */
  lemma TopAfterPop(stack: seq<Record>, r: seq<Record>, t: Formula)
    requires Chained(stack) && r <= stack && |r| > 0
    requires ValidSlot(t, Top(stack).slot)
    ensures ValidSlot(t, Top(r).slot)
  {
    assert Top(r) == stack[|r| - 1];
    SlotPrefix(t, Top(stack).slot, Top(r).slot);
  }

  lemma CleanupAfterOperand(stack: seq<Record>, d: int)
    requires StackShape(stack, d, true)
    ensures StackShape(Cleanup(stack, d), d, false)
  {
    CleanupShape(stack, d);
  }

  lemma CleanupAfterClose(stack: seq<Record>, d: int)
    requires StackShape(stack, d, false) && d > 0
    ensures StackShape(Cleanup(stack, d - 1), d - 1, false)
  {
    CleanupShape(stack, d - 1);
  }

  lemma NegatePreserves(st: PState)
    requires Inv(st) && st.expectExpr
    ensures Inv(Negate(st))
  {
    var p := Top(st.stack).slot;
    MoveHole(st.tree, p, Negated(Hole), [Down]);
    ReplaceWellFormed(st.tree, p, Negated(Hole), st.names);
    var stack := Negate(st).stack;
    assert Top(stack).slot == p + [Down];
    assert forall i | 0 <= i < |st.stack| :: stack[i] == st.stack[i];
    assert forall i | 0 <= i < |st.stack| :: st.stack[i].slot <= p;
  }

  lemma OperandPreserves(st: PState, x: Formula, names: Names, next: nat)
    requires Inv(st) && st.expectExpr
    requires names.Valid() && names.Extends(st.names) && WellFormed(x, names) && HoleFree(x)
    requires next >= 1
    ensures Inv(Operand(st, x, names, next))
  {
    var p := Top(st.stack).slot;
    var st' := Operand(st, x, names, next);
    CleanupAfterOperand(st.stack, st.depth);
    TopAfterPop(st.stack, st'.stack, st'.tree);
    FillHole(st.tree, p, x);
    WellFormedExtends(st.tree, st.names, names);
    ReplaceWellFormed(st.tree, p, x, names);
  }

  lemma ClosePreserves(st: PState)
    requires Inv(st) && !st.expectExpr && st.depth > 0
    ensures Inv(Close(st))
  {
    var r := Cleanup(st.stack, st.depth - 1);
    assert StackShape(st.stack, st.depth, false) && ValidSlot(st.tree, Top(st.stack).slot);
    CleanupAfterClose(st.stack, st.depth);
    TopAfterPop(st.stack, r, st.tree);
    var c := Close(st);
    assert c.stack == r && c.tree == st.tree && c.names == st.names;
    InvBetweenTokens(c);
  }

  /** The invariant where a connective is expected, conjunct by conjunct. */
  lemma InvBetweenTokens(st: PState)
    requires !st.expectExpr && StackShape(st.stack, st.depth, false) && ValidSlot(st.tree, Top(st.stack).slot)
    requires HoleFree(st.tree) && st.pos >= 1 && st.names.Valid() && WellFormed(st.tree, st.names)
    ensures Inv(st)
  {
  }

  lemma WrapPreserves(st: PState, op: Connective, next: nat)
    requires Inv(st) && !st.expectExpr
    ensures Inv(Wrap(st, op, next))
  {
    var p := Top(st.stack).slot;
    var x := Binary(At(st.tree, p), Hole, op);
    AtHoleFree(st.tree, p);
    OpenHole(st.tree, p, x, [Right]);
    AtWellFormed(st.tree, p, st.names);
    ReplaceWellFormed(st.tree, p, x, st.names);
    var stack := Wrap(st, op, next).stack;
    assert Top(stack).slot == p + [Right];
    assert forall i | 0 <= i < |st.stack| :: stack[i] == st.stack[i];
    assert forall i | 0 <= i < |st.stack| :: st.stack[i].slot <= p;
  }

  /**
   * Every turn of the loop keeps the invariant and advances `f` without
   * passing the end of the input; in particular the stack is never empty
   * when its top is read.
   */
  lemma StepPreserves(s: string, st: PState)
    requires Inv(st) && CharAt(s, st.pos) != '\0'
    ensures Step(s, st).Continue? ==>
              Inv(Step(s, st).next) && st.pos < Step(s, st).next.pos <= |s|
    ensures Step(s, st).Fail? ==>
              Step(s, st).errorPos <= |s| && Step(s, st).expects in "e(c->"
  {
    var c := CharAt(s, st.pos);
    if c == ' ' {
    } else if st.expectExpr {
      ExpressionPreserves(s, st);
    } else if c == ')' {
      if st.depth > 0 {
        ClosePreserves(st);
      }
    } else {
      var scan := ScanConnective(s, st.pos);
      if scan.Token? {
        WrapPreserves(st, scan.op, scan.last + 1);
      }
    }
  }

  lemma ExpressionPreserves(s: string, st: PState)
    requires Inv(st) && CharAt(s, st.pos) !in " \0" && st.expectExpr
    ensures Step(s, st).Continue? ==>
              Inv(Step(s, st).next) && st.pos < Step(s, st).next.pos <= |s|
    ensures Step(s, st).Fail? ==> Step(s, st).errorPos <= |s| && Step(s, st).expects == 'e'
  {
    var c := CharAt(s, st.pos);
    if c == '!' {
      NegatePreserves(st);
    } else if c != '(' && IsVarChar(c) {
      var j := VarEnd(s, st.pos);
      var name := s[st.pos..j];
      var (names, id) := Interned(st.names, name);
      assert IsVarName(name);
      OperandPreserves(st, Variable(id, name), names, j);
    }
  }

  /**
   * `parse_result`: the tree with the two tables, or the offset of the
   * offending character and the token expected there (`'e'` an expression,
   * `'c'` a binary connective, otherwise the character itself).
   */
  datatype ParseResult = Parsed(f: Formula, names: Names) | SyntaxError(errorPos: nat, expects: char)

  /**
   * The rest of the main loop from `st`, then the final depth check. A
   * parsed tree is well formed for its tables and is either complete or has
   * exactly one null slot (input that ended where an expression was due); an
   * error offset never lies past the end of the input.
   */
  function Run(s: string, st: PState): (r: ParseResult)
    requires Inv(st) && st.pos <= |s|
    decreases |s| - st.pos, 1
  {
    if CharAt(s, st.pos) == '\0' then
      if st.depth != 0 then SyntaxError(st.pos, ')')
      else
        assert st.expectExpr ==> HoleOnlyAt(st.tree, Top(st.stack).slot);
        Parsed(st.tree, st.names)
    else
      Advance(s, st)
  }

  /** One pass of the loop body at a character that is not the end of the input, then the rest of the loop. */
  function Advance(s: string, st: PState): (r: ParseResult)
    requires Inv(st) && st.pos <= |s| && CharAt(s, st.pos) != '\0'
    decreases |s| - st.pos, 0
  {
    StepPreserves(s, st);
    match Step(s, st)
    case Continue(next) => Run(s, next)
    case Fail(p, e) => SyntaxError(p, e)
  }

  /**
   * What the rest of the loop can end in: a tree well formed for its tables
   * with at most one null slot, or an error offset within the input; a
   * missing `)` is reported where the input ends.
   */
  lemma {:induction false} RunOutcome(s: string, st: PState)
    requires Inv(st) && st.pos <= |s|
    ensures var r := Run(s, st);
            (r.Parsed? ==> r.names.Valid() && WellFormed(r.f, r.names) && AtMostOneHole(r.f)) &&
            (r.SyntaxError? ==> r.errorPos <= |s| && r.expects in "e(c->)") &&
            (r.SyntaxError? && r.expects == ')' ==> CharAt(s, r.errorPos) == '\0')
    decreases |s| - st.pos
  {
    if CharAt(s, st.pos) == '\0' {
      if st.depth == 0 {
        assert st.expectExpr ==> HoleOnlyAt(st.tree, Top(st.stack).slot);
      }
    } else {
      StepPreserves(s, st);
      match Step(s, st)
      case Continue(next) => RunOutcome(s, next);
      case Fail(_, _) =>
    }
  }

  /** `parse_formula(s, s + |s|)`. */
  function Parse(s: string): (r: ParseResult)
    ensures r.Parsed? ==> r.names.Valid() && WellFormed(r.f, r.names)
    ensures r.Parsed? ==> AtMostOneHole(r.f)
    ensures r.SyntaxError? ==> r.errorPos <= |s| && r.expects in "e(c->)"
  {
    InitInv();
    RunOutcome(s, Init);
    Run(s, Init)
  }

  lemma PopQuickKeepsBase(stack: seq<Record>, d: int)
    requires |stack| >= 2 && !stack[1].quick
    ensures |PopQuick(stack, d)| >= 2
  {
  }

  /**
   * "Clean up negations" and "move back up": pop the quick records at depth
   * `d` or deeper, then the record below them if it is that deep.
   */
  method MoveBackUp(stack: seq<Record>, d: int) returns (r: seq<Record>)
    requires |stack| >= 2 && !stack[1].quick
    ensures r == Cleanup(stack, d)
  {
    PopQuickKeepsBase(stack, d);
    r := stack;
    var top := Top(r);
    while d <= top.depth && top.quick
      invariant |PopQuick(stack, d)| <= |r| && top == Top(r)
      invariant PopQuick(r, d) == PopQuick(stack, d)
      decreases |r|
    {
      r := Pop(r);
      top := Top(r);
    }
    if d <= top.depth {
      r := Pop(r);
    }
  }

  /**
   * `parse_var`: scans the variable token at `i`, interns its name, and
   * returns the offset of its last character with the new `Variable`.
   */
  method ParseVar(s: string, i: nat, table: VarTable) returns (last: nat, v: Formula)
    requires i < |s| && IsVarChar(s[i]) && table.Value().Valid()
    modifies table
    ensures last + 1 == VarEnd(s, i)
    ensures var r := Interned(old(table.Value()), s[i..last + 1]);
            table.Value() == r.0 && v == Variable(r.1, s[i..last + 1])
  {
    var j := i;
    while j < |s| && IsVarChar(s[j])
      invariant i <= j <= |s| && VarEnd(s, j) == VarEnd(s, i)
      decreases |s| - j
    {
      j := j + 1;
    }
    var name := s[i..j];
    var id := table.Intern(name);
    v := Variable(id, name);
    last := j - 1;
  }

  /** `st` is a state of the main loop on input `s`: what is left of the loop from it yields `Parse(s)`. */
  ghost predicate Reached(s: string, st: PState) {
    Inv(st) && st.pos <= |s| && Run(s, st) == Parse(s)
  }

  /** One turn of the loop as seen from `Run`. */
  lemma RunUnfold(s: string, st: PState, n: Next)
    requires Reached(s, st) && CharAt(s, st.pos) != '\0' && n == Step(s, st)
    ensures n.Continue? ==> Reached(s, n.next) && st.pos < n.next.pos
    ensures n.Fail? ==> Parse(s) == SyntaxError(n.errorPos, n.expects)
  {
    StepPreserves(s, st);
    assert Run(s, st) == Advance(s, st);
  }

  /** The `continue` of the loop on a space. */
  lemma SkipSpace(s: string, st: PState)
    requires Reached(s, st) && CharAt(s, st.pos) == ' '
    ensures Reached(s, st.(pos := st.pos + 1))
  {
    RunUnfold(s, st, Step(s, st));
  }

  /** The loop has stopped at the end of the input or at a NUL. */
  lemma RunAtEnd(s: string, st: PState)
    requires Reached(s, st) && CharAt(s, st.pos) == '\0'
    ensures Parse(s) == if st.depth != 0 then SyntaxError(st.pos, ')') else Parsed(st.tree, st.names)
  {
  }

  /** In expression position, a character that cannot start an operand is reported as an `'e'` error at its offset. */
  lemma ExpressionError(s: string, st: PState)
    requires Reached(s, st) && st.expectExpr && st.pos < |s|
    requires s[st.pos] !in "!( \0" && !IsVarChar(s[st.pos])
    ensures Parse(s) == SyntaxError(st.pos, 'e')
  {
    RunUnfold(s, st, Step(s, st));
  }

  /**
   * In connective position: an unknown character, an incomplete `<->` or
   * `->`, and a `)` with no open `(` are each reported where the source
   * reports them.
   */
  lemma ConnectiveError(s: string, st: PState)
    requires Reached(s, st) && !st.expectExpr && st.pos < |s| && s[st.pos] != '\0'
    ensures var c, i := s[st.pos], st.pos;
            (c !in " )&|<-" ==> Parse(s) == SyntaxError(i, 'c')) &&
            (c == '<' && CharAt(s, i + 1) != '-' ==> Parse(s) == SyntaxError(i + 1, '-')) &&
            (c == '<' && CharAt(s, i + 1) == '-' && CharAt(s, i + 2) != '>' ==> Parse(s) == SyntaxError(i + 2, '>')) &&
            (c == '-' && CharAt(s, i + 1) != '>' ==> Parse(s) == SyntaxError(i + 1, '>')) &&
            (c == ')' && st.depth == 0 ==> Parse(s) == SyntaxError(i - 1, '('))
  {
    RunUnfold(s, st, Step(s, st));
  }

  /**
   * The `expect_expr` branch of the loop for the character at `st.pos`: `!`,
   * `(`, a variable token (scanned and interned by `parse_var`), or the
   * error return.
   */
  method ExpressionToken(s: string, st: PState, table: VarTable) returns (n: Next)
    requires Inv(st) && st.expectExpr && st.names == table.Value()
    requires CharAt(s, st.pos) !in " \0"
    modifies table
    ensures n == Step(s, st)
    ensures n.Continue? ==> n.next.names == table.Value()
  {
    var c := s[st.pos];
    if c == '!' {
      var p := Top(st.stack).slot;
      n := Continue(st.(tree := ReplaceAt(st.tree, p, Negated(Hole)),
                        stack := st.stack + [Record(p + [Down], st.depth, true)],
                        pos := st.pos + 1));
    } else if c == '(' {
      n := Continue(st.(depth := st.depth + 1, pos := st.pos + 1));
    } else if !IsVarChar(c) {
      n := Fail(st.pos, 'e');
    } else {
      var last, v := ParseVar(s, st.pos, table);
      var tree := ReplaceAt(st.tree, Top(st.stack).slot, v);
      var stack := MoveBackUp(st.stack, st.depth);
      n := Continue(st.(tree := tree, stack := stack, expectExpr := false,
                        pos := last + 1, names := table.Value()));
    }
  }

  /**
   * The other branch: `)` with its depth check and move back up, or a binary
   * connective that wraps the operand in the top slot.
   */
  method ConnectiveToken(s: string, st: PState) returns (n: Next)
    requires Inv(st) && !st.expectExpr
    requires CharAt(s, st.pos) !in " \0"
    ensures n == Step(s, st)
    ensures n.Continue? ==> n.next.names == st.names
  {
    var c := s[st.pos];
    if c == ')' {
      var depth := st.depth - 1;
      if depth < 0 {
        return Fail(st.pos - 1, '(');
      }
      var stack := MoveBackUp(st.stack, depth);
      n := Continue(st.(depth := depth, stack := stack, pos := st.pos + 1));
    } else {
      var scan := ScanConnective(s, st.pos);
      if scan.Bad? {
        return Fail(scan.errorPos, scan.expects);
      }
      var p := Top(st.stack).slot;
      n := Continue(st.(tree := ReplaceAt(st.tree, p, Binary(At(st.tree, p), Hole, scan.op)),
                        stack := st.stack + [Record(p + [Right], st.depth, false)],
                        expectExpr := true, pos := scan.last + 1));
    }
  }

  /**
   * `parse_formula`: the main loop over the input up to its end or a NUL,
   * then the final depth check. The returned table is the `Vmap`/`Rmap`
   * pair of the result.
   */
  method ParseFormula(s: string) returns (r: ParseResult, table: VarTable)
    ensures r == Parse(s)
    ensures fresh(table) && (r.Parsed? ==> table.Value() == r.names)
  {
    table := new VarTable();
    var st := Init;
    InitInv();
    while CharAt(s, st.pos) != '\0'
      invariant Reached(s, st)
      invariant st.names == table.Value()
      decreases |s| - st.pos
    {
      var n;
      if s[st.pos] == ' ' {
        SkipSpace(s, st);
        n := Continue(st.(pos := st.pos + 1));
      } else {
        if st.expectExpr {
          n := ExpressionToken(s, st, table);
        } else {
          n := ConnectiveToken(s, st);
        }
        RunUnfold(s, st, n);
      }
      match n
      case Fail(e, x) =>
        return SyntaxError(e, x), table;
      case Continue(next) =>
        st := next;
    }
    RunAtEnd(s, st);
    if st.depth != 0 {
      return SyntaxError(st.pos, ')'), table;
    }
    r := Parsed(st.tree, st.names);
  }

  /**
   * The ids the parser gives the variables of `f`, starting from table `n`:
   * each name is interned when it is met, left to right.
   */
  function Renumber(n: Names, f: Formula): (r: (Formula, Names))
    requires n.Valid()
    ensures r.1.Valid() && r.1.Extends(n)
    ensures Strip(r.0) == Strip(f)
    ensures HoleFree(f) ==> HoleFree(r.0) && Print(r.0) == Print(f)
    decreases f
  {
    match f
    case Variable(_, name) =>
      var (m, id) := Interned(n, name);
      (Variable(id, name), m)
    case Negated(g) =>
      var (g', m) := Renumber(n, g);
      (Negated(g'), m)
    case Binary(l, r, op) =>
      var (l', m1) := Renumber(n, l);
      var (r', m2) := Renumber(m1, r);
      ExtendsTransitive(n, m1, m2);
      (Binary(l', r', op), m2)
    case _ => (f, n)
  }

  /** A printable formula renumbers to one that is well formed for the grown table. */
  lemma {:induction false} RenumberWellFormed(n: Names, f: Formula)
    requires n.Valid() && Printable(f)
    ensures Printable(Renumber(n, f).0) && WellFormed(Renumber(n, f).0, Renumber(n, f).1)
    decreases f
  {
    match f
    case Variable(_, _) =>
    case Negated(g) => RenumberWellFormed(n, g);
    case Binary(l, r, _) =>
      var m1 := Renumber(n, l).1;
      RenumberWellFormed(n, l);
      RenumberWellFormed(m1, r);
      WellFormedExtends(Renumber(n, l).0, m1, Renumber(m1, r).1);
  }

  /** Text `t` occurs in `s` at offset `i`. */
  predicate Occurs(s: string, i: nat, t: string) {
    i + |t| <= |s| && forall k | 0 <= k < |t| :: s[i + k] == t[k]
  }

  lemma OccursSplit(s: string, i: nat, a: string, b: string)
    requires Occurs(s, i, a + b)
    ensures Occurs(s, i, a) && Occurs(s, i + |a|, b)
  {
    forall k | 0 <= k < |a| ensures s[i + k] == a[k] {
      assert (a + b)[k] == a[k];
    }
    forall k | 0 <= k < |b| ensures s[i + |a| + k] == b[k] {
      assert (a + b)[|a| + k] == b[k];
    }
  }

  lemma OccursChar(s: string, i: nat, t: string, k: nat)
    requires Occurs(s, i, t) && k < |t|
    ensures CharAt(s, i + k) == t[k]
  {
  }

  /** An occurrence is the slice of `s` it covers. */
  lemma OccursSlice(s: string, i: nat, t: string)
    requires Occurs(s, i, t)
    ensures s[i..i + |t|] == t
  {
    assert forall k | 0 <= k < |t| :: s[i..i + |t|][k] == t[k];
  }

  lemma {:induction false} VarEndAt(s: string, i: nat, j: nat)
    requires i <= j <= |s| && forall k | i <= k < j :: IsVarChar(s[k])
    requires !IsVarChar(CharAt(s, j))
    ensures VarEnd(s, i) == j
    decreases j - i
  {
    if i < j {
      assert IsVarChar(s[i]);
      VarEndAt(s, i + 1, j);
    }
  }

  /** A quick record pushed at depth `d` is popped again by a move back up to `d`. */
  lemma CleanupQuick(stack: seq<Record>, p: seq<Dir>, d: int)
    ensures Cleanup(stack + [Record(p, d, true)], d) == Cleanup(stack, d)
  {
    assert Pop(stack + [Record(p, d, true)]) == stack;
  }

  /** Nothing is popped by a move back up to a depth below which the top record lies. */
  lemma CleanupShallow(stack: seq<Record>, d: int)
    requires |stack| > 0 && Top(stack).depth <= d
    ensures Cleanup(stack, d + 1) == stack
  {
  }

  /** The record of a right operand, pushed one level deeper, is the only one its move back up pops. */
  lemma CleanupRight(stack: seq<Record>, p: seq<Dir>, d: int)
    requires |stack| > 0 && Top(stack).depth <= d
    ensures Cleanup(stack + [Record(p, d + 1, false)], d + 1) == stack
  {
    assert Pop(stack + [Record(p, d + 1, false)]) == stack;
  }

  lemma ExpectTopDepth(st: PState)
    requires Inv(st) && st.expectExpr
    ensures Top(st.stack).depth <= st.depth
  {
    assert Top(st.stack) == st.stack[|st.stack| - 1];
  }

  /** Unfolding `Run` once at a state where the loop continues. */
  lemma RunContinues(s: string, st: PState)
    requires Inv(st) && st.pos <= |s| && CharAt(s, st.pos) != '\0' && Step(s, st).Continue?
    ensures Inv(Step(s, st).next) && Step(s, st).next.pos <= |s|
    ensures Run(s, st) == Run(s, Step(s, st).next)
  {
    StepPreserves(s, st);
  }

  lemma RunBang(s: string, st: PState)
    requires Inv(st) && st.expectExpr && st.pos <= |s| && CharAt(s, st.pos) == '!'
    ensures Inv(Negate(st)) && Negate(st).pos <= |s| && Run(s, st) == Run(s, Negate(st))
  {
    assert Step(s, st) == Continue(Negate(st));
    RunContinues(s, st);
  }

  lemma RunOpen(s: string, st: PState)
    requires Inv(st) && st.expectExpr && st.pos <= |s| && CharAt(s, st.pos) == '('
    ensures Inv(Opened(st)) && Opened(st).pos <= |s| && Run(s, st) == Run(s, Opened(st))
  {
    assert Step(s, st) == Continue(Opened(st));
    RunContinues(s, st);
  }

  lemma RunVariable(s: string, st: PState, name: string)
    requires Inv(st) && st.expectExpr && IsVarName(name)
    requires Occurs(s, st.pos, name) && !IsVarChar(CharAt(s, st.pos + |name|))
    ensures var (m, id) := Interned(st.names, name);
            var st' := Operand(st, Variable(id, name), m, st.pos + |name|);
            Inv(st') && Run(s, st) == Run(s, st')
  {
    var e := st.pos + |name|;
    OccursChar(s, st.pos, name, 0);
    OccursSlice(s, st.pos, name);
    forall k | st.pos <= k < e ensures IsVarChar(s[k]) {
      assert s[k] == name[k - st.pos];
    }
    VarEndAt(s, st.pos, e);
    var (m, id) := Interned(st.names, name);
    assert Step(s, st) == Continue(Operand(st, Variable(id, name), m, e));
    RunContinues(s, st);
  }

  lemma RunConnective(s: string, st: PState, op: Connective)
    requires Inv(st) && !st.expectExpr && Occurs(s, st.pos, Symbol(op))
    ensures var st' := Wrap(st, op, st.pos + |Symbol(op)|);
            Inv(st') && st'.pos <= |s| && Run(s, st) == Run(s, st')
  {
    SymbolStart(op);
    OccursChar(s, st.pos, Symbol(op), 0);
    OccursPrefix(s, st.pos, Symbol(op));
    ScanRecognises(s, st.pos, op);
    assert Step(s, st) == Continue(Wrap(st, op, st.pos + |Symbol(op)|));
    RunContinues(s, st);
  }

  lemma RunClose(s: string, st: PState)
    requires Inv(st) && !st.expectExpr && st.pos <= |s| && CharAt(s, st.pos) == ')' && st.depth > 0
    ensures Inv(Close(st)) && Close(st).pos <= |s| && Run(s, st) == Run(s, Close(st))
  {
    assert Step(s, st) == Continue(Close(st));
    RunContinues(s, st);
  }

  lemma SymbolStart(op: Connective)
    ensures |Symbol(op)| > 0 && !IsVarChar(Symbol(op)[0]) && Symbol(op)[0] !in " )"
  {
  }

  lemma OccursPrefix(s: string, i: nat, t: string)
    requires Occurs(s, i, t)
    ensures t <= s[i..]
  {
    assert s[i..][..|t|] == s[i..i + |t|];
  }

  /** The state after reading a whole operand `f` from `st`: as if `f`, renumbered, were one variable. */
  ghost function AfterOperand(st: PState, f: Formula): PState
    requires Inv(st) && HoleFree(f)
  {
    var (g, n) := Renumber(st.names, f);
    Operand(st, g, n, st.pos + |Print(f)|)
  }

  /** The state after `(`. */
  function Opened(st: PState): PState {
    st.(depth := st.depth + 1, pos := st.pos + 1)
  }

  /** The state after `(`, the left operand and the connective of a binary print. */
  ghost function AfterLeft(st: PState, f: Formula): PState
    requires Inv(st) && f.Binary? && HoleFree(f)
  {
    var p := Top(st.stack).slot;
    var (l', n1) := Renumber(st.names, f.l);
    PState(ReplaceAt(st.tree, p, Binary(l', Hole, f.op)),
           st.stack + [Record(p + [Right], st.depth + 1, false)],
           st.depth + 1, true, st.pos + 1 + |Print(f.l)| + |Symbol(f.op)|, n1)
  }

  lemma VariableShape(st: PState, f: Formula)
    requires Inv(st) && f.Variable? && HoleFree(f)
    ensures var (m, id) := Interned(st.names, f.name);
            AfterOperand(st, f) == Operand(st, Variable(id, f.name), m, st.pos + |f.name|)
  {
  }

  lemma NegatedShape(st: PState, f: Formula)
    requires Inv(st) && st.expectExpr && f.Negated? && HoleFree(f)
    requires Inv(Negate(st))
    ensures AfterOperand(Negate(st), f.f) == AfterOperand(st, f)
  {
    var p := Top(st.stack).slot;
    var (h', n') := Renumber(st.names, f.f);
    ReplaceCompose(st.tree, p, Negated(Hole), [Down], h');
    CleanupQuick(st.stack, p + [Down], st.depth);
  }

  lemma LeftShape(st: PState, f: Formula)
    requires Inv(st) && st.expectExpr && f.Binary? && HoleFree(f)
    ensures Top(AfterOperand(Opened(st), f.l).stack) == Top(st.stack)
    ensures var x := AfterOperand(Opened(st), f.l);
            x.pos == st.pos + 1 + |Print(f.l)| && Wrap(x, f.op, x.pos + |Symbol(f.op)|) == AfterLeft(st, f)
  {
    var p := Top(st.stack).slot;
    var (l', n1) := Renumber(st.names, f.l);
    ExpectTopDepth(st);
    CleanupShallow(st.stack, st.depth);
    ReplaceTwice(st.tree, p, l', Binary(l', Hole, f.op));
  }

  lemma BinaryShape(st: PState, f: Formula)
    requires Inv(st) && st.expectExpr && f.Binary? && HoleFree(f) && Inv(AfterLeft(st, f))
    ensures Close(AfterOperand(AfterLeft(st, f), f.r)) == AfterOperand(st, f)
  {
    var p := Top(st.stack).slot;
    var (l', n1) := Renumber(st.names, f.l);
    var (r', n2) := Renumber(n1, f.r);
    ExpectTopDepth(st);
    CleanupRight(st.stack, p + [Right], st.depth);
    ReplaceCompose(st.tree, p, Binary(l', Hole, f.op), [Right], r');
  }

  /** Where the closing `)` of a binary print is read. */
  lemma ClosePosition(s: string, st: PState, f: Formula)
    requires Inv(st) && st.expectExpr && f.Binary? && HoleFree(f) && Inv(AfterLeft(st, f))
    requires var e := st.pos + 1 + |Print(f.l)| + |Symbol(f.op)| + |Print(f.r)|; e < |s| && CharAt(s, e) == ')'
    ensures var y := AfterOperand(AfterLeft(st, f), f.r);
            !y.expectExpr && y.pos < |s| && CharAt(s, y.pos) == ')' && y.depth > 0
  {
  }

  /** The last character of a binary print is its `)`. */
  lemma BinaryPrintEnd(s: string, i: nat, f: Formula)
    requires f.Binary? && HoleFree(f) && Occurs(s, i, Print(f))
    ensures var e := i + 1 + |Print(f.l)| + |Symbol(f.op)| + |Print(f.r)|;
            e < |s| && CharAt(s, e) == ')' && e + 1 == i + |Print(f)|
    ensures Occurs(s, i, "(" + Print(f.l) + Symbol(f.op) + Print(f.r))
  {
    var pl, sy, pr := Print(f.l), Symbol(f.op), Print(f.r);
    OccursSplit(s, i, "(" + pl + sy + pr, ")");
    OccursChar(s, i + 1 + |pl| + |sy| + |pr|, ")", 0);
  }

  /** Moves the invariant across an equation between states, kept out of the larger proofs. */
  lemma InvTransfer(a: PState, b: PState)
    requires Inv(a) && a == b
    ensures Inv(b)
  {
  }

  /** Reading `f` from `st` reaches `AfterOperand(st, f)`. */
  ghost predicate ReadsOperand(s: string, st: PState, f: Formula)
    requires Inv(st) && st.pos <= |s| && HoleFree(f)
  {
    Inv(AfterOperand(st, f)) && AfterOperand(st, f).pos <= |s| && Run(s, st) == Run(s, AfterOperand(st, f))
  }

  /**
   * Reading the printed form of `f` where an expression is expected (and
   * where a character that cannot continue a variable follows it) fills the
   * top slot with `f`, renumbered, and moves back up exactly as a single
   * variable would.
   */
  lemma {:induction false} OperandRun(s: string, st: PState, f: Formula)
    requires Inv(st) && st.expectExpr && Printable(f)
    requires Occurs(s, st.pos, Print(f)) && !IsVarChar(CharAt(s, st.pos + |Print(f)|))
    ensures ReadsOperand(s, st, f)
    decreases f, 4
  {
    match f
    case Variable(_, name) =>
      RunVariable(s, st, name);
      VariableShape(st, f);
    case Negated(h) =>
      OperandRunNegated(s, st, f);
    case Binary(_, _, _) =>
      OperandRunBinary(s, st, f);
  }

  lemma {:induction false} OperandRunNegated(s: string, st: PState, f: Formula)
    requires Inv(st) && st.expectExpr && Printable(f) && f.Negated?
    requires Occurs(s, st.pos, Print(f)) && !IsVarChar(CharAt(s, st.pos + |Print(f)|))
    ensures ReadsOperand(s, st, f)
    decreases f, 3
  {
    OccursSplit(s, st.pos, "!", Print(f.f));
    OccursChar(s, st.pos, "!", 0);
    RunBang(s, st);
    OperandRun(s, Negate(st), f.f);
    NegatedShape(st, f);
  }

  lemma {:induction false} OpenLeft(s: string, st: PState, f: Formula)
    requires Inv(st) && st.expectExpr && Printable(f) && f.Binary?
    requires Occurs(s, st.pos, "(" + Print(f.l)) && !IsVarChar(CharAt(s, st.pos + 1 + |Print(f.l)|))
    ensures ReadsOperand(s, Opened(st), f.l) && Run(s, st) == Run(s, Opened(st))
    decreases f, 0
  {
    LeftOperandPosition(s, st.pos, f.l, st.pos + 1);
    RunOpen(s, st);
    OperandRunAt(s, Opened(st), f.l, st.pos + 1);
  }

  /** Where the left operand of a binary print starts, just past its `(`. */
  lemma LeftOperandPosition(s: string, i: nat, l: Formula, p: nat)
    requires p == i + 1 && HoleFree(l) && Occurs(s, i, "(" + Print(l))
    ensures i <= |s| && CharAt(s, i) == '(' && Occurs(s, p, Print(l))
  {
    OccursSplit(s, i, "(", Print(l));
    OccursChar(s, i, "(", 0);
  }

  /** The opening `(`, left operand and connective of a binary print, each where it should be. */
  lemma BinaryPrintStart(s: string, i: nat, f: Formula)
    requires f.Binary? && HoleFree(f) && Occurs(s, i, "(" + Print(f.l) + Symbol(f.op))
    ensures Occurs(s, i, "(" + Print(f.l)) && Occurs(s, i + 1 + |Print(f.l)|, Symbol(f.op))
    ensures !IsVarChar(CharAt(s, i + 1 + |Print(f.l)|))
  {
    OccursSplit(s, i, "(" + Print(f.l), Symbol(f.op));
    SymbolStart(f.op);
    OccursChar(s, i + 1 + |Print(f.l)|, Symbol(f.op), 0);
  }

  lemma {:induction false} BinaryLeft(s: string, st: PState, f: Formula) returns (x: PState)
    requires Inv(st) && st.expectExpr && Printable(f) && f.Binary?
    requires Occurs(s, st.pos, "(" + Print(f.l) + Symbol(f.op))
    ensures x == AfterLeft(st, f) && x.pos == st.pos + 1 + |Print(f.l)| + |Symbol(f.op)| && x.expectExpr
    ensures Inv(x) && x.pos <= |s| && Run(s, st) == Run(s, x)
    decreases f, 1
  {
    BinaryPrintStart(s, st.pos, f);
    OpenLeft(s, st, f);
    LeftShape(st, f);
    x := AfterLeft(st, f);
    ConnectiveInto(s, AfterOperand(Opened(st), f.l), f.op, x);
  }

  /** Reading a connective reaches the state `target` already known to equal its wrap. */
  lemma ConnectiveInto(s: string, x: PState, op: Connective, target: PState)
    requires Inv(x) && !x.expectExpr && Occurs(s, x.pos, Symbol(op))
    requires Wrap(x, op, x.pos + |Symbol(op)|) == target
    ensures Inv(target) && target.pos <= |s| && Run(s, x) == Run(s, target)
  {
    RunConnective(s, x, op);
  }

  lemma {:induction false} BinaryRight(s: string, st: PState, f: Formula) returns (x: PState)
    requires Inv(st) && st.expectExpr && Printable(f) && f.Binary?
    requires Occurs(s, st.pos, "(" + Print(f.l) + Symbol(f.op) + Print(f.r))
    requires !IsVarChar(CharAt(s, st.pos + 1 + |Print(f.l)| + |Symbol(f.op)| + |Print(f.r)|))
    ensures x == AfterLeft(st, f) && Inv(x) && x.pos <= |s|
    ensures ReadsOperand(s, x, f.r) && Run(s, st) == Run(s, x)
    decreases f, 2
  {
    var p := st.pos + 1 + |Print(f.l)| + |Symbol(f.op)|;
    RightOperandPosition(s, st.pos, f, p);
    x := BinaryLeft(s, st, f);
    OperandRunAt(s, x, f.r, p);
  }

  /** Where the right operand of a binary print starts, and what follows it. */
  lemma RightOperandPosition(s: string, i: nat, f: Formula, p: nat)
    requires f.Binary? && Printable(f) && p == i + 1 + |Print(f.l)| + |Symbol(f.op)|
    requires Occurs(s, i, "(" + Print(f.l) + Symbol(f.op) + Print(f.r))
    requires !IsVarChar(CharAt(s, i + 1 + |Print(f.l)| + |Symbol(f.op)| + |Print(f.r)|))
    ensures Printable(f.r) && Occurs(s, p, Print(f.r)) && !IsVarChar(CharAt(s, p + |Print(f.r)|))
    ensures Occurs(s, i, "(" + Print(f.l) + Symbol(f.op))
  {
    OccursSplit(s, i, "(" + Print(f.l) + Symbol(f.op), Print(f.r));
  }

  /** `OperandRun` with the position of the operand named, so that the callers match it as given. */
  lemma {:induction false} OperandRunAt(s: string, st: PState, f: Formula, p: nat)
    requires Inv(st) && st.expectExpr && Printable(f) && st.pos == p
    requires Occurs(s, p, Print(f)) && !IsVarChar(CharAt(s, p + |Print(f)|))
    ensures ReadsOperand(s, st, f)
    decreases f, 5
  {
    OperandRun(s, st, f);
  }

  /** The closing `)` of a binary print, once both operands have been read. */
  lemma CloseBinary(s: string, st: PState, f: Formula)
    requires Inv(st) && st.expectExpr && f.Binary? && HoleFree(f)
    requires var e := st.pos + 1 + |Print(f.l)| + |Symbol(f.op)| + |Print(f.r)|;
             e < |s| && CharAt(s, e) == ')' && e + 1 == st.pos + |Print(f)|
    requires Inv(AfterLeft(st, f)) && Inv(AfterOperand(AfterLeft(st, f), f.r))
    ensures var y := AfterOperand(AfterLeft(st, f), f.r);
            Inv(AfterOperand(st, f)) && AfterOperand(st, f).pos <= |s| &&
            y.pos <= |s| && Run(s, y) == Run(s, AfterOperand(st, f))
  {
    var y := AfterOperand(AfterLeft(st, f), f.r);
    ClosePosition(s, st, f);
    RunClose(s, y);
    BinaryShape(st, f);
    InvTransfer(Close(y), AfterOperand(st, f));
  }

  lemma {:induction false} OperandRunBinary(s: string, st: PState, f: Formula)
    requires Inv(st) && st.expectExpr && Printable(f) && f.Binary?
    requires Occurs(s, st.pos, Print(f)) && !IsVarChar(CharAt(s, st.pos + |Print(f)|))
    ensures ReadsOperand(s, st, f)
    decreases f, 3
  {
    BinaryPrintEnd(s, st.pos, f);
    var x := BinaryRight(s, st, f);
    CloseBinary(s, st, f);
  }

  /**
   * Parsing a canonical print gives the formula back, with its variables
   * numbered in order of first occurrence, and nothing else changed.
   */
  lemma ParsePrint(f: Formula)
    requires Printable(f)
    ensures var (g, n) := Renumber(Empty, f);
            Parse(Print(f)) == Parsed(g, n) && Strip(g) == Strip(f) && Print(g) == Print(f)
  {
    var s := Print(f);
    assert s[0..|s|] == s;
    var st := InfixFirst(s, f);
  }

  /** Empty input: the loop never runs and the root stays null. */
  lemma ParseEmpty()
    ensures Parse("") == Parsed(Hole, Empty)
  {
  }

  /** A connective with nothing after it: success, with a null right operand. */
  lemma ParseTrailingConnective()
    ensures var (m, id) := Interned(Empty, "a");
            Parse("a&") == Parsed(Binary(Variable(id, "a"), Hole, And), m)
  {
    var s := "a&";
    InitInv();
    assert Occurs(s, 0, "a") && CharAt(s, 1) == '&';
    RunVariable(s, Init, "a");
    var (m, id) := Interned(Empty, "a");
    var st1 := Operand(Init, Variable(id, "a"), m, 1);
    assert st1.tree == Variable(id, "a") && st1.stack == [Boot] && st1.depth == 0;
    assert Occurs(s, 1, "&");
    RunConnective(s, st1, And);
    var st2 := Wrap(st1, And, 2);
    assert st2.tree == Binary(Variable(id, "a"), Hole, And) && st2.depth == 0 && CharAt(s, 2) == '\0';
  }

  /** A `)` with no matching `(`: the error points one character before it. */
  lemma ParseUnopened()
    ensures Parse("a)") == SyntaxError(0, '(')
  {
    var s := "a)";
    InitInv();
    assert Occurs(s, 0, "a") && CharAt(s, 1) == ')';
    RunVariable(s, Init, "a");
    var (m, id) := Interned(Empty, "a");
    var st1 := Operand(Init, Variable(id, "a"), m, 1);
    assert Step(s, st1) == Fail(0, '(');
  }

  /** A `(` never closed: a `)` is expected where the input ends. */
  lemma ParseUnclosed()
    ensures Parse("(a") == SyntaxError(2, ')')
  {
    var s := "(a";
    InitInv();
    RunOpen(s, Init);
    assert Occurs(s, 1, "a") && CharAt(s, 2) == '\0';
    RunVariable(s, Opened(Init), "a");
  }

  /** A connective broken off after its first character. */
  lemma ParseBrokenConnective()
    ensures Parse("a<-b") == SyntaxError(3, '>')
  {
    var s := "a<-b";
    InitInv();
    assert Occurs(s, 0, "a") && CharAt(s, 1) == '<';
    RunVariable(s, Init, "a");
    var (m, id) := Interned(Empty, "a");
    var st1 := Operand(Init, Variable(id, "a"), m, 1);
    assert ScanConnective(s, 1) == Bad(3, '>');
  }

  /** Two operands with no connective between them. */
  lemma ParseMissingConnective()
    ensures Parse("a b") == SyntaxError(2, 'c')
  {
    var s := "a b";
    InitInv();
    assert Occurs(s, 0, "a") && CharAt(s, 1) == ' ';
    RunVariable(s, Init, "a");
    var (m, id) := Interned(Empty, "a");
    var st1 := Operand(Init, Variable(id, "a"), m, 1);
    RunContinues(s, st1);
    assert ScanConnective(s, 2) == Bad(2, 'c');
  }

  /** Operands that are parsed formulas, joined by connectives. */
  ghost predicate Chain(f0: Formula, rest: seq<(Connective, Formula)>) {
    Printable(f0) && forall i | 0 <= i < |rest| :: Printable(rest[i].1)
  }

  /** Operands joined by binary connectives with no parentheses, left to right. */
  function Infix(f0: Formula, rest: seq<(Connective, Formula)>): string
    requires Chain(f0, rest)
  {
    if rest == [] then Print(f0)
    else
      var last := rest[|rest| - 1];
      assert Chain(f0, rest[..|rest| - 1]) by {
        assert forall i | 0 <= i < |rest| - 1 :: rest[..|rest| - 1][i] == rest[i];
      }
      Infix(f0, rest[..|rest| - 1]) + Symbol(last.0) + Print(last.1)
  }

  /** The same operands nested to the left: `((f0 op1 f1) op2 f2) ...`. */
  function LeftNest(f0: Formula, rest: seq<(Connective, Formula)>): Formula {
    if rest == [] then f0
    else
      var last := rest[|rest| - 1];
      Binary(LeftNest(f0, rest[..|rest| - 1]), last.1, last.0)
  }

  lemma {:induction false} LeftNestPrintable(f0: Formula, rest: seq<(Connective, Formula)>)
    requires Chain(f0, rest)
    ensures Printable(LeftNest(f0, rest))
    decreases |rest|
  {
    if rest != [] {
      var pre := rest[..|rest| - 1];
      assert forall i | 0 <= i < |pre| :: pre[i] == rest[i];
      LeftNestPrintable(f0, pre);
    }
  }

  /** One more connective and operand read after an operand alone at the root. */
  lemma InfixStep(s: string, st: PState, op: Connective, h: Formula, p: nat, e: nat) returns (st': PState)
    requires Inv(st) && !st.expectExpr && st.stack == [Boot] && st.depth == 0 && Printable(h)
    requires st.pos == p && e == p + |Symbol(op)| + |Print(h)|
    requires Occurs(s, p, Symbol(op) + Print(h)) && !IsVarChar(CharAt(s, e))
    ensures Inv(st') && st'.pos <= |s| && Run(s, st) == Run(s, st')
    ensures var (h', n') := Renumber(st.names, h);
            st' == PState(Binary(st.tree, h', op), [Boot], 0, false, e, n')
  {
    OccursSplit(s, p, Symbol(op), Print(h));
    var st2 := RootConnective(s, st, op);
    st' := RootOperand(s, st2, st.tree, st.names, op, h, p + |Symbol(op)|, e);
  }

  /** The right operand of a connective at the root, read to the end. */
  lemma RootOperand(s: string, st: PState, t: Formula, n: Names, op: Connective, h: Formula, p: nat, e: nat)
    returns (st': PState)
    requires Inv(st) && st.expectExpr && st.depth == 0 && Printable(h) && st.pos == p && st.names == n
    requires st.tree == Binary(t, Hole, op) && st.stack == [Boot, Record([] + [Right], 0, false)]
    requires e == p + |Print(h)| && Occurs(s, p, Print(h)) && !IsVarChar(CharAt(s, e))
    ensures Inv(st') && st'.pos <= |s| && Run(s, st) == Run(s, st')
    ensures var (h', n') := Renumber(n, h);
            st' == PState(Binary(t, h', op), [Boot], 0, false, e, n')
  {
    OperandRun(s, st, h);
    var (h', n') := Renumber(n, h);
    OperandUnderRoot(st, t, op, h', n', e);
    st' := AfterOperand(st, h);
  }

  /** A connective read at the root makes the tree read so far its left operand. */
  lemma RootConnective(s: string, st: PState, op: Connective) returns (st2: PState)
    requires Inv(st) && !st.expectExpr && st.stack == [Boot] && st.depth == 0 && Occurs(s, st.pos, Symbol(op))
    ensures Inv(st2) && st2.pos <= |s| && Run(s, st) == Run(s, st2)
    ensures st2.tree == Binary(st.tree, Hole, op) && st2.stack == [Boot, Record([] + [Right], 0, false)]
    ensures st2.depth == 0 && st2.expectExpr && st2.pos == st.pos + |Symbol(op)| && st2.names == st.names
  {
    RunConnective(s, st, op);
    st2 := Wrap(st, op, st.pos + |Symbol(op)|);
  }

  /** The right operand of a connective at the root completes the root and pops back to `Boot`. */
  lemma OperandUnderRoot(st: PState, t: Formula, op: Connective, x: Formula, names: Names, next: nat)
    requires st.tree == Binary(t, Hole, op) && st.stack == [Boot, Record([] + [Right], 0, false)] && st.depth == 0
    ensures Operand(st, x, names, next) == PState(Binary(t, x, op), [Boot], 0, false, next, names)
  {
    assert PopQuick(st.stack, 0) == st.stack;
    assert Cleanup(st.stack, 0) == [Boot];
  }

  /** The first operand of a chain, read from the initial state. */
  lemma InfixFirst(s: string, f0: Formula) returns (st: PState)
    requires Printable(f0) && Occurs(s, 0, Print(f0)) && !IsVarChar(CharAt(s, |Print(f0)|))
    ensures Inv(st) && st.pos <= |s| && Run(s, Init) == Run(s, st)
    ensures var (g, n) := Renumber(Empty, f0);
            st == PState(g, [Boot], 0, false, |Print(f0)|, n)
  {
    InitInv();
    OperandRun(s, Init, f0);
    assert Cleanup([Boot, Boot], 0) == [Boot] by {
      assert PopQuick([Boot, Boot], 0) == [Boot, Boot];
    }
    st := AfterOperand(Init, f0);
  }

  /** A chain's text is the text of all but its last link, then that link. */
  lemma InfixUnfold(f0: Formula, rest: seq<(Connective, Formula)>)
    requires Chain(f0, rest) && rest != []
    ensures var pre, op, h := rest[..|rest| - 1], rest[|rest| - 1].0, rest[|rest| - 1].1;
            Chain(f0, pre) && Printable(h) && Infix(f0, rest) == Infix(f0, pre) + (Symbol(op) + Print(h))
  {
    var pre := rest[..|rest| - 1];
    assert forall i | 0 <= i < |pre| :: pre[i] == rest[i];
  }

  /** Where the last connective and operand of a chain lie in its text. */
  lemma InfixLast(s: string, f0: Formula, rest: seq<(Connective, Formula)>)
    requires Chain(f0, rest) && rest != [] && Occurs(s, 0, Infix(f0, rest))
    ensures var pre, op, h := rest[..|rest| - 1], rest[|rest| - 1].0, rest[|rest| - 1].1;
            Chain(f0, pre) && Printable(h) && Occurs(s, 0, Infix(f0, pre)) && !IsVarChar(CharAt(s, |Infix(f0, pre)|))
            && Occurs(s, |Infix(f0, pre)|, Symbol(op) + Print(h))
            && |Infix(f0, rest)| == |Infix(f0, pre)| + |Symbol(op)| + |Print(h)|
  {
    var pre, op, h := rest[..|rest| - 1], rest[|rest| - 1].0, rest[|rest| - 1].1;
    InfixUnfold(f0, rest);
    var a := Infix(f0, pre);
    OccursSplit(s, 0, a, Symbol(op) + Print(h));
    SymbolStart(op);
    OccursChar(s, |a|, Symbol(op) + Print(h), 0);
  }

  /** After an unparenthesised chain the whole chain sits at the root, nested to the left. */
  lemma {:induction false} InfixRun(s: string, f0: Formula, rest: seq<(Connective, Formula)>) returns (st: PState)
    requires Chain(f0, rest)
    requires Occurs(s, 0, Infix(f0, rest)) && !IsVarChar(CharAt(s, |Infix(f0, rest)|))
    ensures Inv(st) && st.pos <= |s| && Run(s, Init) == Run(s, st)
    ensures var (g, n) := Renumber(Empty, LeftNest(f0, rest));
            st == PState(g, [Boot], 0, false, |Infix(f0, rest)|, n)
    decreases |rest|
  {
    if rest == [] {
      st := InfixFirst(s, f0);
    } else {
      var pre, op, h := rest[..|rest| - 1], rest[|rest| - 1].0, rest[|rest| - 1].1;
      InfixLast(s, f0, rest);
      var st1 := InfixRun(s, f0, pre);
      st := InfixStep(s, st1, op, h, |Infix(f0, pre)|, |Infix(f0, rest)|);
    }
  }

  /**
   * Binary connectives associate to the left and have no precedence: an
   * unparenthesised chain parses as the left-nested tree, so `a&b|c` is
   * `((a&b)|c)` and `!a&b` is `(!a&b)`.
   */
  lemma ParseLeftAssociative(f0: Formula, rest: seq<(Connective, Formula)>)
    requires Chain(f0, rest)
    ensures var (g, n) := Renumber(Empty, LeftNest(f0, rest));
            Parse(Infix(f0, rest)) == Parsed(g, n) && Strip(g) == Strip(LeftNest(f0, rest))
  {
    var s := Infix(f0, rest);
    assert s[0..|s|] == s;
    var st := InfixRun(s, f0, rest);
  }
}
