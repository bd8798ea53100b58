/**
 * is_anchored and is_startline: what the first items of every alternative tell about where a
 * match can begin.
 */
module Anchor {
  import opened Bytes
  import opened Opcodes
  import opened Subject
  import opened Regex
  import opened Program
  import opened Lower
  import opened Machine
  import opened Layout

  // ----- on program trees -----

  /** Does the code begin with what both tests look for? `anchored` tells which test it is. */
  predicate BeginsCode(o: Options, anchored: bool, c: Code)
    decreases c
  {
    match c
    case Empty => false
    case Then(Number(_), tl) => BeginsCode(o, anchored, tl)
    case Then(Bra(_, alts, _), _) => BeginsChoice(o, anchored, alts)
    case Then(Many(t, min, max, _, _), _) => t == Type(Any) && min == 0 && max == -1 && (anchored ==> o.dotall)
    case Then(AtStart, _) => anchored ==> !o.multiline
    case Then(_, _) => false
  }

  predicate BeginsChoice(o: Options, anchored: bool, a: Choice)
    decreases a
  {
    BeginsCode(o, anchored, a.c) && (a.Or? ==> BeginsChoice(o, anchored, a.more))
  }

  // ----- on patterns -----

  /** A piece that compiles to nothing. */
  predicate Absent(p: Piece) {
    p.q.Rep? && p.q.max == 0 && (p.a.Lit? ==> |p.a.run| == 1) && !p.a.Circ? && !p.a.Doll?
  }

  predicate BeginsBranch(o: Options, anchored: bool, b: Branch)
    requires ValidBranch(b)
    decreases b
  {
    b.Cons? &&
    assert ValidAtom(b.hd.a);
    if Absent(b.hd) then BeginsBranch(o, anchored, b.tl)
    else match b.hd.a
      case Circ => anchored ==> !o.multiline
      case Single(t) => t == Type(Any) && b.hd.q.Rep? && b.hd.q.min == 0 && b.hd.q.max == -1 && (anchored ==> o.dotall)
      case Group(_, alts) => (b.hd.q.Once? || b.hd.q.min > 0) && BeginsAlts(o, anchored, alts)
      case _ => false
  }

  predicate BeginsAlts(o: Options, anchored: bool, alts: Alts)
    requires ValidAlts(alts)
    decreases alts
  {
    BeginsBranch(o, anchored, alts.b) && (alts.Alt? ==> BeginsAlts(o, anchored, alts.more))
  }

  lemma {:induction false} BeginsRep(o: Options, anchored: bool, cap: nat, a: Choice, min: nat, max: int, lazy: bool, tl: Code)
    requires max >= -1 && (max >= 0 ==> min <= max) && max != 0
    ensures BeginsCode(o, anchored, Append(LowerRep(cap, a, min, max, lazy), tl)) == (min > 0 && BeginsChoice(o, anchored, a))
  {
  }

  lemma BeginsTagged(o: Options, anchored: bool, cap: nat, a: Choice)
    ensures BeginsChoice(o, anchored, Tagged(cap, a)) == BeginsChoice(o, anchored, a)
  {
  }

  lemma BeginsSingle(o: Options, anchored: bool, t: Test, q: Quant, tl: Code)
    requires t.Valid() && !t.Char? && q.Valid() && !(q.Rep? && q.max == 0)
    ensures BeginsCode(o, anchored, Append(LowerTest(t, q), tl)) ==
            (t == Type(Any) && q.Rep? && q.min == 0 && q.max == -1 && (anchored ==> o.dotall))
  {
  }

  lemma BeginsLit(o: Options, anchored: bool, run: seq<byte>, q: Quant, tl: Code)
    requires 1 <= |run| <= MAXLIT && q.Valid() && !(q.Rep? && q.max == 0 && |run| == 1)
    ensures !BeginsCode(o, anchored, Append(LowerLit(run, q), tl))
  {
  }

  lemma BeginsGroup(o: Options, anchored: bool, p: Piece, tl: Code)
    requires ValidAtom(p.a) && p.q.Valid() && p.a.Group? && !Absent(p)
    ensures BeginsCode(o, anchored, Append(LowerPiece(p), tl)) == ((p.q.Once? || p.q.min > 0) && BeginsChoice(o, anchored, LowerAlts(p.a.alts)))
  {
    hide LowerAlts, LowerRep, BeginsChoice;
    var a := Tagged(p.a.cap, LowerAlts(p.a.alts));
    BeginsTagged(o, anchored, p.a.cap, LowerAlts(p.a.alts));
    if p.q.Rep? {
      BeginsRep(o, anchored, p.a.cap, a, p.q.min, p.q.max, p.q.lazy, tl);
    } else {
      assert Append(Unit(Bra(p.a.cap, a, Plain)), tl) == Then(Bra(p.a.cap, a, Plain), tl);
    }
  }

  lemma {:induction false} BeginsKept(o: Options, anchored: bool, b: Branch)
    requires ValidBranch(b) && Repeatable(b)
    ensures BeginsCode(o, anchored, LowerBranch(b)) == BeginsBranch(o, anchored, b)
    decreases b
  {
    if b.Cons? {
      var tl := LowerBranch(b.tl);
      if Absent(b.hd) {
        BeginsKept(o, anchored, b.tl);
        assert LowerPiece(b.hd) == Empty;
      } else {
        match b.hd.a
        case Lit(run) => BeginsLit(o, anchored, run, b.hd.q, tl);
        case Single(t) => BeginsSingle(o, anchored, t, b.hd.q, tl);
        case Circ =>
        case Doll =>
        case Group(cap, alts) =>
          BeginsAltsKept(o, anchored, alts);
          BeginsGroup(o, anchored, b.hd, tl);
      }
    }
  }

  lemma {:induction false} BeginsAltsKept(o: Options, anchored: bool, alts: Alts)
    requires ValidAlts(alts) && RepeatableAlts(alts)
    ensures BeginsChoice(o, anchored, LowerAlts(alts)) == BeginsAlts(o, anchored, alts)
    decreases alts
  {
    BeginsKept(o, anchored, alts.b);
    if alts.Alt? { BeginsAltsKept(o, anchored, alts.more); }
  }

  /** Where the tests promise that a match at `i` implies one that begins a byte earlier. */
  ghost predicate Backs(E: Env, anchored: bool, i: nat) {
    0 < i <= |E.s| && (!anchored ==> E.s[i - 1] != NEWLINE)
  }

  // ----- on compiled code -----

  /** A repeat of `.` without limit is the only item with its two bytes. */
  lemma StarBytes(n: Node)
    requires ValidNode(n)
    ensures var e := EncNode(n);
            (e[0] == OP_TYPESTAR || e[0] == OP_TYPESTAR + 1) ==>
              |e| >= 2 && n.Many? && n.t.Type? && n.min == 0 && n.max == -1 && (e[1] == OP_ANY <==> n.t == Type(Any))
    ensures var e := EncNode(n);
            n.Many? && n.t == Type(Any) && n.min == 0 && n.max == -1 ==> e[0] == OP_TYPESTAR || e[0] == OP_TYPESTAR + 1
  {
  }

  predicate StarByte(op: byte) {
    op == OP_TYPESTAR || op == OP_TYPESTAR + 1
  }

  /** What the bytes at an item that is not a number say about it. */
  lemma HeadBytes(code: seq<byte>, o: Options, anchored: bool, k: Todo)
    requires Placed(code, k) && !(k.rest.Then? && k.rest.hd.Number?)
    ensures 0 <= Pc(code, k) < |code|
    ensures StarByte(code[Pc(code, k)]) ==> Pc(code, k) + 1 < |code|
    ensures var pc, op, begins := Pc(code, k), code[Pc(code, k)], BeginsCode(o, anchored, k.rest);
            if op < OP_BRA then
              begins == ((StarByte(op) && code[pc + 1] == OP_ANY && (anchored ==> o.dotall)) || (op == OP_CIRC && (anchored ==> !o.multiline)))
            else
              && k.rest.Then? && k.rest.hd.Bra? && begins == BeginsChoice(o, anchored, k.rest.hd.alts)
              && AltsAt(code, pc, BraByte(k.rest.hd.cap), k.rest.hd.alts, k.rest.hd, k.(rest := k.rest.tl))
  {
    hide Text, EncNode, EncCode, EncChoice, AltsAt, EndsWith, BeginsChoice;
    AtByte(code, k);
    if k.rest.Then? {
      var n, next := k.rest.hd, k.(rest := k.rest.tl);
      StepOver(code, k);
      FirstByte(n);
      StarBytes(n);
      if n.Bra? {
        TextThen(k);
        AtBracket(code, n, next);
      }
    }
  }

  /** Skips the group number, if there is one. */
  method FirstSignificant(code: seq<byte>, at: nat, ghost k: Todo) returns (scode: nat, ghost k1: Todo)
    requires Placed(code, k) && at == Pc(code, k)
    ensures at <= scode && Placed(code, k1) && scode == Pc(code, k1) && !(k1.rest.Then? && k1.rest.hd.Number?)
    ensures forall o, anchored :: BeginsCode(o, anchored, k1.rest) == BeginsCode(o, anchored, k.rest)
  {
    hide Text, EncNode;
    scode, k1 := at, k;
    AtByte(code, k1);
    while code[scode] == OP_BRANUMBER
      invariant at <= scode < |code| && Placed(code, k1) && scode == Pc(code, k1)
      invariant forall o, anchored :: BeginsCode(o, anchored, k1.rest) == BeginsCode(o, anchored, k.rest)
      decreases |code| - scode
    {
      NumberNext(code, k1);
      k1 := k1.(rest := k1.rest.tl);
      scode := scode + 3;
      AtByte(code, k1);
    }
    NumberByte(code, k1);
  }

  lemma NumberByte(code: seq<byte>, k: Todo)
    requires Placed(code, k)
    ensures 0 <= Pc(code, k) < |code|
    ensures code[Pc(code, k)] == OP_BRANUMBER <==> k.rest.Then? && k.rest.hd.Number?
  {
    AtByte(code, k);
    if k.rest.Then? {
      StepOver(code, k);
      FirstByte(k.rest.hd);
    }
  }

  lemma NumberNext(code: seq<byte>, k: Todo)
    requires Placed(code, k) && 0 <= Pc(code, k) < |code| && code[Pc(code, k)] == OP_BRANUMBER
    ensures k.rest.Then? && k.rest.hd.Number?
    ensures var next := k.(rest := k.rest.tl); Placed(code, next) && Pc(code, next) == Pc(code, k) + 3
  {
    NumberByte(code, k);
    StepOver(code, k);
    TextThen(k);
    NumberBytes(k.rest.hd.n);
  }

  /** Do all alternatives of the bracket at `at` fix where a match begins? */
  method IsAnchored(code: seq<byte>, at: nat, o: Options, ghost op0: byte, ghost a0: Choice, ghost g: Node, ghost k: Todo) returns (r: bool)
    requires |code| <= MAX_PATTERN_SIZE && AltsAt(code, at, op0, a0, g, k)
    ensures r == BeginsChoice(o, true, a0)
    decreases |code| - at
  {
    hide Text, EncNode, EncChoice, EncCode, Placed, AltsAt, BeginsCode;
    var pc := at;
    ghost var op1, a := op0, a0;
    while true
      invariant at <= pc && AltsAt(code, pc, op1, a, g, k)
      invariant BeginsChoice(o, true, a0) == BeginsChoice(o, true, a)
      decreases |code| - pc
    {
      AtHeader(code, pc, op1, a, g, 0, k);
      ghost var k1;
      var scode;
      scode, k1 := FirstSignificant(code, pc + 3, Enter(a, g, 0, k));
      HeadBytes(code, o, true, k1);
      assert BeginsCode(o, true, k1.rest) == BeginsCode(o, true, a.c);
      var op := code[scode];
      if op >= OP_BRA {
        var inner := IsAnchored(code, scode, o, BraByte(k1.rest.hd.cap), k1.rest.hd.alts, k1.rest.hd, k1.(rest := k1.rest.tl));
        if !inner { return false; }
      } else if StarByte(op) && o.dotall {
        if code[scode + 1] != OP_ANY { return false; }
      } else if o.multiline || op != OP_CIRC {
        return false;
      }
      pc := pc + Get(code, pc + 1);
      if code[pc] != OP_ALT { return true; }
      op1, a := OP_ALT, a.more;
    }
  }

  /** Do all alternatives of the bracket at `at` begin with `^` or with a repeated `.`? */
  method IsStartline(code: seq<byte>, at: nat, o: Options, ghost op0: byte, ghost a0: Choice, ghost g: Node, ghost k: Todo) returns (r: bool)
    requires |code| <= MAX_PATTERN_SIZE && AltsAt(code, at, op0, a0, g, k)
    ensures r == BeginsChoice(o, false, a0)
    decreases |code| - at
  {
    hide Text, EncNode, EncChoice, EncCode, Placed, AltsAt, BeginsCode;
    var pc := at;
    ghost var op1, a := op0, a0;
    while true
      invariant at <= pc && AltsAt(code, pc, op1, a, g, k)
      invariant BeginsChoice(o, false, a0) == BeginsChoice(o, false, a)
      decreases |code| - pc
    {
      AtHeader(code, pc, op1, a, g, 0, k);
      ghost var k1;
      var scode;
      scode, k1 := FirstSignificant(code, pc + 3, Enter(a, g, 0, k));
      HeadBytes(code, o, false, k1);
      assert BeginsCode(o, false, k1.rest) == BeginsCode(o, false, a.c);
      var op := code[scode];
      if op >= OP_BRA {
        var inner := IsStartline(code, scode, o, BraByte(k1.rest.hd.cap), k1.rest.hd.alts, k1.rest.hd, k1.(rest := k1.rest.tl));
        if !inner { return false; }
      } else if StarByte(op) {
        if code[scode + 1] != OP_ANY { return false; }
      } else if op != OP_CIRC {
        return false;
      }
      pc := pc + Get(code, pc + 1);
      if code[pc] != OP_ALT { return true; }
      op1, a := OP_ALT, a.more;
    }
  }
}
