/** What running a compiled pattern means for the pattern itself. */
module Correct {
  import opened Wrappers
  import opened Bytes
  import opened Opcodes
  import opened Subject
  import opened Regex
  import opened Language
  import opened Program
  import opened Lower
  import opened Machine
  import opened Ordered

  /** The bytes of a whole compiled pattern. */
  function CompiledPattern(alts: Alts): seq<byte>
    requires ValidAlts(alts) && ValidNode(LowerPattern(alts))
  {
    EncNode(LowerPattern(alts)) + [OP_END]
  }

  lemma PatternValid(alts: Alts)
    requires ValidAlts(alts)
    ensures ValidNode(LowerPattern(alts)) && ValidCode(Unit(LowerPattern(alts)))
  {
    AltsValid(alts);
  }

  // ----- the fragment on which matching is exact -----

  predicate NullablePiece(p: Piece)
    decreases p
  {
    match p.a
    case Lit(run) => |run| == 1 && p.q.Rep? && p.q.min == 0
    case Single(_) => p.q.Rep? && p.q.min == 0
    case Group(_, alts) => (p.q.Rep? && p.q.min == 0) || NullableAlts(alts)
    case _ => true
  }

  predicate NullableBranch(b: Branch)
    decreases b
  {
    b.Cons? ==> NullablePiece(b.hd) && NullableBranch(b.tl)
  }

  predicate NullableAlts(alts: Alts)
    decreases alts
  {
    NullableBranch(alts.b) || (alts.Alt? && NullableAlts(alts.more))
  }

  /**
   * `open`: after the piece, the end of an enclosing group that repeats without limit can be
   * reached without consuming. There a group with a varying count has a body that cannot match the
   * empty string, and is lazy only in the form that no BRAMINZERO is compiled for.
   */
  predicate ExactPiece(p: Piece, open: bool)
    decreases p
  {
    p.a.Group? && !(p.q.Rep? && p.q.max == 0) ==>
      && ExactIn(p.a.alts, open || (p.q.Rep? && p.q.max < 0))
      && (open && p.q.Rep? && p.q.min != p.q.max ==>
            !NullableAlts(p.a.alts) && (p.q.lazy ==> p.q.max < 0 && p.q.min > 0))
  }

  predicate ExactBranch(b: Branch, open: bool)
    decreases b
  {
    b.Cons? ==> ExactPiece(b.hd, open && NullableBranch(b.tl)) && ExactBranch(b.tl, open)
  }

  predicate ExactIn(alts: Alts, open: bool)
    decreases alts
  {
    ExactBranch(alts.b, open) && (alts.Alt? ==> ExactIn(alts.more, open))
  }

  /** Only inside groups that repeat without limit is anything asked. */
  predicate ExactAlts(alts: Alts) {
    ExactIn(alts, false)
  }

  /** A group with a varying count is greedy and its body cannot match the empty string. */
  predicate ConsumingPiece(p: Piece)
    decreases p
  {
    p.a.Group? ==>
      ConsumingAlts(p.a.alts) && (p.q.Rep? && p.q.min != p.q.max ==> !p.q.lazy && !NullableAlts(p.a.alts))
  }

  predicate ConsumingBranch(b: Branch)
    decreases b
  {
    b.Cons? ==> ConsumingPiece(b.hd) && ConsumingBranch(b.tl)
  }

  predicate ConsumingAlts(alts: Alts)
    decreases alts
  {
    ConsumingBranch(alts.b) && (alts.Alt? ==> ConsumingAlts(alts.more))
  }

  lemma {:induction false} BranchExact(b: Branch, open: bool)
    requires ConsumingBranch(b)
    ensures ExactBranch(b, open)
    decreases b
  {
    if b.Cons? {
      var p := b.hd;
      if p.a.Group? { ConsumingExact(p.a.alts, (open && NullableBranch(b.tl)) || (p.q.Rep? && p.q.max < 0)); }
      BranchExact(b.tl, open);
    }
  }

  /** Greedy repeats of groups that consume are exact wherever they stand. */
  lemma {:induction false} ConsumingExact(alts: Alts, open: bool)
    requires ConsumingAlts(alts)
    ensures ExactIn(alts, open)
    decreases alts
  {
    BranchExact(alts.b, open);
    if alts.Alt? { ConsumingExact(alts.more, open); }
  }

  lemma {:induction false} TameAppend(a: Code, b: Code, open: bool)
    ensures NullableCode(Append(a, b)) == (NullableCode(a) && NullableCode(b))
    ensures TameCode(Append(a, b), open) == (TameCode(a, open && NullableCode(b)) && TameCode(b, open))
  {
    if a.Then? { TameAppend(a.tl, b, open); }
  }

  lemma {:induction false} TameLess(n: Node, open: bool)
    requires Tame(n, open)
    ensures Tame(n, false)
    decreases n
  {
    match n
    case Bra(_, alts, ket) => if ket.Plain? { TameLessChoice(alts, open); }
    case Zero(g, _) => TameLess(g, open);
    case _ =>
  }

  lemma {:induction false} TameLessCode(c: Code, open: bool)
    requires TameCode(c, open)
    ensures TameCode(c, false)
    decreases c
  {
    if c.Then? {
      TameLess(c.hd, open && NullableCode(c.tl));
      TameLessCode(c.tl, open);
    }
  }

  lemma {:induction false} TameLessChoice(a: Choice, open: bool)
    requires TameChoice(a, open)
    ensures TameChoice(a, false)
    decreases a
  {
    TameLessCode(a.c, open);
    if a.Or? { TameLessChoice(a.more, open); }
  }

  lemma {:induction false} TameRep(cap: nat, a: Choice, min: nat, max: int, lazy: bool, open: bool)
    requires max >= -1 && (max >= 0 ==> min <= max) && (max != 0 ==> TameChoice(a, open || max < 0))
    requires open && min != max ==> !NullableChoice(a) && (lazy ==> max < 0 && min > 0)
    ensures TameCode(LowerRep(cap, a, min, max, lazy), open)
    decreases if max < 0 then min else max
  {
    hide TameChoice, NullableChoice;
    var plain := Bra(cap, a, Plain);
    assert TameCode(Empty, open) && TameCode(Empty, false);
    if max != 0 {
      TameLessChoice(a, open || max < 0);
      assert Tame(plain, false) && (max > 0 ==> Tame(plain, open));
      assert Nullable(plain) == NullableChoice(a);
      if max < 0 && min <= 1 {
        assert Tame(Bra(cap, a, Loop(lazy)), open);
      } else {
        var rest := LowerRep(cap, a, Pred(min), Dec(max), lazy);
        TameRep(cap, a, Pred(min), Dec(max), lazy, open);
        NullableRep(cap, a, Pred(min), Dec(max), lazy);
        var copies := Then(plain, rest);
        assert TameCode(copies, open);
        if min == 0 && max > 1 { TameWrap(copies, open); }
      }
    }
  }

  lemma TameWrap(c: Code, open: bool)
    requires TameCode(c, open)
    ensures var wrap := Bra(0, Only(c), Plain); Tame(wrap, open) && Nullable(wrap) == NullableCode(c)
  {
    assert TameChoice(Only(c), open) && NullableChoice(Only(c)) == NullableCode(c);
  }

  lemma TameSingle(t: Test, min: nat, max: int, lazy: bool, open: bool)
    requires max >= 0 ==> min <= max
    ensures TameCode(LowerSingle(t, min, max, lazy), open) && TameCode(LowerRest(t, min, max, lazy), open)
    ensures NullableCode(LowerSingle(t, min, max, lazy)) == (min == 0)
  {
  }

  lemma {:induction false} TamePiece(p: Piece, open: bool)
    requires ValidAtom(p.a) && p.q.Valid()
    ensures NullableCode(LowerPiece(p)) == NullablePiece(p)
    ensures ExactPiece(p, open) ==> TameCode(LowerPiece(p), open)
    decreases p, 1
  {
    hide LowerLit, LowerTest, LowerRep, TameCode, NullableCode;
    match p.a
    case Lit(run) => TameLit(run, p.q, open);
    case Single(t) => TameTest(t, p.q, open);
    case Circ => TameUnit(AtStart, open);
    case Doll => TameUnit(AtEnd, open);
    case Group(cap, alts) => TameGroup(p, open);
  }

  lemma TameUnit(n: Node, open: bool)
    requires !n.Bra? && !n.Zero?
    ensures TameCode(Unit(n), open) && NullableCode(Unit(n)) == Nullable(n)
  {
  }

  lemma TameLit(run: seq<byte>, q: Quant, open: bool)
    requires 1 <= |run| <= MAXLIT && q.Valid()
    ensures TameCode(LowerLit(run, q), open) && NullableCode(LowerLit(run, q)) == (|run| == 1 && q.Rep? && q.min == 0)
  {
    if q.Rep? { TameSingle(Char(run[|run| - 1]), q.min, q.max, q.lazy, open); }
  }

  lemma TameTest(t: Test, q: Quant, open: bool)
    requires t.Valid() && !t.Char? && q.Valid()
    ensures TameCode(LowerTest(t, q), open) && NullableCode(LowerTest(t, q)) == (q.Rep? && q.min == 0)
  {
    if q.Rep? { TameSingle(t, q.min, q.max, q.lazy, open); }
  }

  lemma {:induction false} TameGroup(p: Piece, open: bool)
    requires ValidAtom(p.a) && p.q.Valid() && p.a.Group?
    ensures NullableCode(LowerPiece(p)) == NullablePiece(p)
    ensures ExactPiece(p, open) ==> TameCode(LowerPiece(p), open)
    decreases p, 0
  {
    hide LowerAlts, LowerRep;
    var cap, alts := p.a.cap, p.a.alts;
    var inner := open || (p.q.Rep? && p.q.max < 0);
    TameAlts(alts, inner);
    var a := Tagged(cap, LowerAlts(alts));
    TameTagged(cap, LowerAlts(alts), inner);
    if p.q.Rep? {
      NullableRep(cap, a, p.q.min, p.q.max, p.q.lazy);
      if ExactPiece(p, open) { TameRep(cap, a, p.q.min, p.q.max, p.q.lazy, open); }
    }
  }

  lemma TameTagged(cap: nat, a: Choice, open: bool)
    ensures NullableChoice(Tagged(cap, a)) == NullableChoice(a) && TameChoice(Tagged(cap, a), open) == TameChoice(a, open)
  {
    var t := Tagged(cap, a);
    if cap > EXTRACT_BASIC_MAX {
      hide NullableCode, TameCode;
      TameNumber(cap, a.c, open);
      assert t == a.(c := Then(Number(cap), a.c));
    }
  }

  lemma TameNumber(cap: nat, c: Code, open: bool)
    ensures NullableCode(Then(Number(cap), c)) == NullableCode(c) && TameCode(Then(Number(cap), c), open) == TameCode(c, open)
  {
    var n := Number(cap);
    assert Nullable(n) && Tame(n, open && NullableCode(c)) by { hide NullableCode; }
  }

  lemma {:induction false} NullableRep(cap: nat, a: Choice, min: nat, max: int, lazy: bool)
    requires max >= -1 && (max >= 0 ==> min <= max)
    ensures NullableCode(LowerRep(cap, a, min, max, lazy)) == (min == 0 || NullableChoice(a))
    decreases if max < 0 then min else max
  {
    if max != 0 && !(max < 0 && min <= 1) {
      NullableRep(cap, a, Pred(min), Dec(max), lazy);
    }
  }

  lemma {:induction false} TameBranch(b: Branch, open: bool)
    requires ValidBranch(b)
    ensures NullableCode(LowerBranch(b)) == NullableBranch(b)
    ensures ExactBranch(b, open) ==> TameCode(LowerBranch(b), open)
    decreases b, 1
  {
    if b.Cons? {
      TameBranch(b.tl, open);
      TamePiece(b.hd, open && NullableBranch(b.tl));
      TameAppend(LowerPiece(b.hd), LowerBranch(b.tl), open);
    }
  }

  lemma {:induction false} TameAlts(alts: Alts, open: bool)
    requires ValidAlts(alts)
    ensures NullableChoice(LowerAlts(alts)) == NullableAlts(alts)
    ensures ExactIn(alts, open) ==> TameChoice(LowerAlts(alts), open)
    decreases alts, 1
  {
    TameBranch(alts.b, open);
    if alts.Alt? { TameAlts(alts.more, open); }
  }

  // ----- running a pattern -----

  /** The state in which a match attempt at `i` begins; `veto` is `i` under NOTEMPTY and -1 otherwise. */
  ghost function Begin(alts: Alts, veto: int): Todo
    requires ValidAlts(alts)
  {
    Top(Unit(LowerPattern(alts)), veto)
  }

  lemma BeginFit(E: Env, alts: Alts, veto: int, i: nat)
    requires ValidAlts(alts) && i <= |E.s|
    ensures Fit(E, Begin(alts, veto), St(i, map[]), Block(i, Null))
  {
    PatternValid(alts);
  }

  /** What `match` computes when it is called on a compiled pattern at position `i`. */
  ghost function Attempt(E: Env, alts: Alts, veto: int, i: nat): Option<St>
    requires ValidAlts(alts) && i <= |E.s|
  {
    BeginFit(E, alts, veto, i);
    Run(E, Begin(alts, veto), St(i, map[]), Block(i, Null))
  }

  ghost function Without(veto: int, sts: seq<St>): seq<St> {
    if sts == [] then [] else (if sts[0].pos == veto then [] else [sts[0]]) + Without(veto, sts[1..])
  }

  lemma {:induction false} LeaveTop(E: Env, k: Todo, sts: seq<St>)
    requires Machine.Valid(k) && k.Top?
    ensures LeaveAll(E, k, sts) == Without(k.veto, sts)
    decreases |sts|
  {
    if sts != [] { LeaveTop(E, k, sts[1..]); }
  }

  lemma BeginEnds(E: Env, alts: Alts, veto: int, st: St)
    requires ValidAlts(alts)
    ensures Machine.Valid(Begin(alts, veto))
    ensures TodoEnds(E, Begin(alts, veto), st) == Without(veto, AltsEnds(E, alts, st))
  {
    PatternValid(alts);
    var root := LowerPattern(alts);
    LeaveTop(E, Begin(alts, veto), CodeEnds(E, Unit(root), st));
    UnitEnds(E, root, st);
    AltsEndsKept(E, alts, st);
    CloseNone(st.pos, AltsEnds(E, alts, st));
    assert PassEnds(E, root, st) == AltsEnds(E, alts, st);
    PlainKet(E, root, st.pos, PassEnds(E, root, st));
    assert NodeEnds(E, root, st) == BraEnds(E, root, st);
  }

  lemma {:induction false} WithoutMember(veto: int, sts: seq<St>, e: St)
    ensures e in Without(veto, sts) <==> e in sts && e.pos != veto
    decreases |sts|
  {
    if sts != [] {
      WithoutMember(veto, sts[1..], e);
      assert sts == [sts[0]] + sts[1..];
    }
  }

  /**
   * On the exact fragment an attempt finds what textbook ordered backtracking finds first, with
   * the same captures, once a match ending at `veto` has been ruled out.
   */
  lemma AttemptIsFirst(E: Env, alts: Alts, veto: int, i: nat)
    requires ValidAlts(alts) && ExactAlts(alts) && i <= |E.s|
    ensures Attempt(E, alts, veto, i) == First(Without(veto, AltsEnds(E, alts, St(i, map[]))))
  {
    var k, st, b := Begin(alts, veto), St(i, map[]), Block(i, Null);
    BeginFit(E, alts, veto, i);
    TameAlts(alts, false);
    assert Tame(LowerPattern(alts), false) && TameTodo(k);
    RunRight(E, k, st, b, true);
    BeginEnds(E, alts, veto, st);
  }

  /** On the exact fragment an attempt succeeds exactly when the language has a permitted span. */
  lemma AttemptDecides(E: Env, alts: Alts, veto: int, i: nat)
    requires ValidAlts(alts) && ExactAlts(alts) && i <= |E.s|
    ensures Attempt(E, alts, veto, i).Some? <==> exists j: nat :: LangAlts(E, alts, i, j) && j != veto
  {
    var st := St(i, map[]);
    var ends := AltsEnds(E, alts, st);
    AttemptIsFirst(E, alts, veto, i);
    forall j: nat | LangAlts(E, alts, i, j) && j != veto
      ensures Attempt(E, alts, veto, i).Some?
    {
      var e := AltsComplete(E, alts, st, j);
      WithoutMember(veto, ends, e);
      assert Without(veto, ends) != [];
    }
    if Attempt(E, alts, veto, i).Some? {
      AttemptSound(E, alts, veto, i);
      var j: nat := Attempt(E, alts, veto, i).value.pos;
      assert LangAlts(E, alts, i, j) && j != veto;
      assert exists j: nat :: LangAlts(E, alts, i, j) && j != veto;
    }
    assert (exists j: nat :: LangAlts(E, alts, i, j) && j != veto) ==> Attempt(E, alts, veto, i).Some?;
    assert Attempt(E, alts, veto, i).Some? ==> (exists j: nat :: LangAlts(E, alts, i, j) && j != veto);
  }

  /**
   * On every pattern, lazy and possibly empty repeated groups included, what an attempt accepts
   * is a span of the language that is not ruled out, and each capture is a span of its group.
   */
  lemma AttemptSound(E: Env, alts: Alts, veto: int, i: nat)
    requires ValidAlts(alts) && i <= |E.s| && Attempt(E, alts, veto, i).Some?
    ensures var e := Attempt(E, alts, veto, i).value;
            && i <= e.pos <= |E.s| && e.pos != veto && LangAlts(E, alts, i, e.pos)
            && forall n :: n in e.caps ==> SpanOf(E, AltsGroups(alts), n, e.caps[n])
  {
    var k, st, b := Begin(alts, veto), St(i, map[]), Block(i, Null);
    BeginFit(E, alts, veto, i);
    RunRight(E, k, st, b, false);
    BeginEnds(E, alts, veto, st);
    var e := Attempt(E, alts, veto, i).value;
    WithoutMember(veto, AltsEnds(E, alts, st), e);
    AltsSound(E, AltsGroups(alts), alts, st, e);
  }
}
