/** What the compiler makes of a pattern, as a program tree, and that it keeps the ordered meaning. */
module Lower {
  import opened Wrappers
  import opened Bytes
  import opened Subject
  import opened Regex
  import opened Opcodes
  import opened Program

  function Unit(n: Node): Code {
    Then(n, Empty)
  }

  /** A test that must succeed once; a single literal byte is still an OP_CHARS item. */
  function Exactly(t: Test): Node {
    if t.Char? then Chars([t.c]) else One(t)
  }

  /** {n,m} on a literal byte, a negated byte or a character type. */
  function LowerSingle(t: Test, min: nat, max: int, lazy: bool): Code {
    if max == 0 then Empty
    else if min == 0 || (min == 1 && max < 0) then Unit(Many(t, min, max, lazy, false))
    else Then(if min == 1 then Exactly(t) else Many(t, min, min, false, false), LowerRest(t, min, max, lazy))
  }

  /** What follows the mandatory part of {n,m}. */
  function LowerRest(t: Test, min: nat, max: int, lazy: bool): Code {
    if max < 0 then Unit(Many(t, 0, -1, lazy, false))
    else if max > min then Unit(Many(t, 0, max - min, lazy, true))
    else Empty
  }

  /** A quantifier takes the last byte off a literal run, unless exactly one copy stays in it. */
  function LowerLit(run: seq<byte>, q: Quant): Code
    requires 1 <= |run|
  {
    var n := |run| - 1;
    if q.Once? then Unit(Chars(run))
    else if q.min == 1 && q.max >= 0 then Then(Chars(run), LowerRest(Char(run[n]), 1, q.max, q.lazy))
    else
      var c := LowerSingle(Char(run[n]), q.min, q.max, q.lazy);
      if n == 0 then c else Then(Chars(run[..n]), c)
  }

  function LowerTest(t: Test, q: Quant): Code {
    if q.Once? then Unit(Exactly(t))
    else if t.Class? then if q.max == 0 then Empty else Unit(Many(t, q.min, q.max, q.lazy, false))
    else LowerSingle(t, q.min, q.max, q.lazy)
  }

  /** Group numbers above EXTRACT_BASIC_MAX follow the bracket as an OP_BRANUMBER item. */
  function Tagged(cap: nat, a: Choice): Choice {
    if cap > EXTRACT_BASIC_MAX then a.(c := Then(Number(cap), a.c)) else a
  }

  function Loop(lazy: bool): Ket {
    if lazy then Min else Max
  }

  /** Copies of a group: mandatory ones in a row, optional ones nested, or a last one that repeats. */
  function LowerRep(cap: nat, a: Choice, min: nat, max: int, lazy: bool): Code
    requires max >= -1
    decreases if max < 0 then min else max
  {
    var plain := Bra(cap, a, Plain);
    if max == 0 then Empty
    else if max < 0 && min == 0 then Unit(Zero(Bra(cap, a, Loop(lazy)), lazy))
    else if max < 0 && min == 1 then Unit(Bra(cap, a, Loop(lazy)))
    else
      var rest := LowerRep(cap, a, Pred(min), Dec(max), lazy);
      if min > 0 then Then(plain, rest)
      else Unit(Zero(if max == 1 then plain else Bra(0, Only(Then(plain, rest)), Plain), lazy))
  }

  function LowerPiece(p: Piece): Code
    requires ValidAtom(p.a) && p.q.Valid()
    decreases p
  {
    match p.a
    case Lit(run) => LowerLit(run, p.q)
    case Single(t) => LowerTest(t, p.q)
    case Circ => Unit(AtStart)
    case Doll => Unit(AtEnd)
    case Group(cap, alts) =>
      var a := Tagged(cap, LowerAlts(alts));
      if p.q.Once? then Unit(Bra(cap, a, Plain)) else LowerRep(cap, a, p.q.min, p.q.max, p.q.lazy)
  }

  function LowerBranch(b: Branch): Code
    requires ValidBranch(b)
    decreases b
  {
    match b
    case Nil => Empty
    case Cons(p, tl) => Append(LowerPiece(p), LowerBranch(tl))
  }

  function LowerAlts(alts: Alts): Choice
    requires ValidAlts(alts)
    decreases alts
  {
    match alts
    case Last(b) => Only(LowerBranch(b))
    case Alt(b, more) => Or(LowerBranch(b), LowerAlts(more))
  }

  /** The whole pattern is one non-capturing bracket. */
  function LowerPattern(alts: Alts): Node
    requires ValidAlts(alts)
  {
    Bra(0, LowerAlts(alts), Plain)
  }

  // ----- validity -----

  lemma {:induction false} RepValid(cap: nat, a: Choice, min: nat, max: int, lazy: bool)
    requires max >= -1 && cap < 0x1_0000 && ValidChoice(a) && Labelled(cap, a)
    ensures ValidCode(LowerRep(cap, a, min, max, lazy))
    decreases if max < 0 then min else max
  {
    var plain := Bra(cap, a, Plain);
    assert ValidNode(plain) && ValidNode(Bra(cap, a, Loop(lazy)));
    if max != 0 && !(max < 0 && min <= 1) {
      RepValid(cap, a, Pred(min), Dec(max), lazy);
      assert ValidChoice(Only(Then(plain, LowerRep(cap, a, Pred(min), Dec(max), lazy))));
    }
  }

  lemma RestValid(t: Test, min: nat, max: int, lazy: bool)
    requires t.Valid() && !t.Class? && max <= 65535
    ensures ValidCode(LowerRest(t, min, max, lazy))
  {
  }

  lemma LitValid(run: seq<byte>, q: Quant)
    requires 1 <= |run| <= MAXLIT && q.Valid()
    ensures ValidCode(LowerLit(run, q))
  {
    if q.Rep? {
      RestValid(Char(run[|run| - 1]), q.min, q.max, q.lazy);
      assert ValidCode(LowerSingle(Char(run[|run| - 1]), q.min, q.max, q.lazy));
    }
  }

  lemma TestValid(t: Test, q: Quant)
    requires t.Valid() && !t.Char? && q.Valid()
    ensures ValidCode(LowerTest(t, q))
  {
  }

  lemma {:induction false} PieceValid(p: Piece)
    requires ValidAtom(p.a) && p.q.Valid()
    ensures ValidCode(LowerPiece(p))
    decreases p
  {
    match p.a
    case Lit(run) => LitValid(run, p.q);
    case Single(t) => TestValid(t, p.q);
    case Circ =>
    case Doll =>
    case Group(cap, alts) =>
      AltsValid(alts);
      var a := Tagged(cap, LowerAlts(alts));
      assert ValidCode(a.c) && ValidChoice(a);
      if p.q.Rep? { RepValid(cap, a, p.q.min, p.q.max, p.q.lazy); }
  }

  lemma {:induction false} BranchValid(b: Branch)
    requires ValidBranch(b)
    ensures ValidCode(LowerBranch(b))
    decreases b
  {
    if b.Cons? {
      PieceValid(b.hd);
      BranchValid(b.tl);
      AppendValid(LowerPiece(b.hd), LowerBranch(b.tl));
    }
  }

  lemma {:induction false} AltsValid(alts: Alts)
    requires ValidAlts(alts)
    ensures ValidChoice(LowerAlts(alts))
    decreases alts
  {
    BranchValid(alts.b);
    if alts.Alt? { AltsValid(alts.more); }
  }

  // ----- lists -----

  lemma {:induction false} CodeEndsAllAppend(E: Env, c: Code, a: seq<St>, b: seq<St>)
    requires ValidCode(c)
    ensures CodeEndsAll(E, c, a + b) == CodeEndsAll(E, c, a) + CodeEndsAll(E, c, b)
    decreases |a|
  {
    if a == [] {
      assert a + b == b;
    } else {
      assert (a + b)[0] == a[0] && (a + b)[1..] == a[1..] + b;
      CodeEndsAllAppend(E, c, a[1..], b);
      Assoc(CodeEnds(E, c, a[0]), CodeEndsAll(E, c, a[1..]), CodeEndsAll(E, c, b));
    }
  }

  lemma {:induction false} EmptyEnds(E: Env, sts: seq<St>)
    ensures CodeEndsAll(E, Empty, sts) == sts
    decreases |sts|
  {
    if sts != [] {
      EmptyEnds(E, sts[1..]);
      assert CodeEnds(E, Empty, sts[0]) == [sts[0]];
    }
  }

  lemma UnitEnds(E: Env, n: Node, st: St)
    requires ValidNode(n)
    ensures CodeEnds(E, Unit(n), st) == NodeEnds(E, n, st)
  {
    EmptyEnds(E, NodeEnds(E, n, st));
    assert CodeEnds(E, Then(n, Empty), st) == CodeEndsAll(E, Empty, NodeEnds(E, n, st));
  }

  lemma {:induction false} OneEnds(E: Env, c: Code, st: St)
    requires ValidCode(c)
    ensures CodeEndsAll(E, c, [st]) == CodeEnds(E, c, st)
  {
  }

  lemma {:induction false} SeqEnds(E: Env, a: Code, b: Code, st: St)
    requires ValidCode(a) && ValidCode(b)
    ensures ValidCode(Append(a, b))
    ensures CodeEnds(E, Append(a, b), st) == CodeEndsAll(E, b, CodeEnds(E, a, st))
    decreases a, 0
  {
    AppendValid(a, b);
    if a.Empty? {
      OneEnds(E, b, st);
    } else {
      SeqEndsAll(E, a.tl, b, NodeEnds(E, a.hd, st));
    }
  }

  lemma {:induction false} SeqEndsAll(E: Env, a: Code, b: Code, sts: seq<St>)
    requires ValidCode(a) && ValidCode(b)
    ensures ValidCode(Append(a, b))
    ensures CodeEndsAll(E, Append(a, b), sts) == CodeEndsAll(E, b, CodeEndsAll(E, a, sts))
    decreases a, 1, |sts|
  {
    AppendValid(a, b);
    if sts != [] {
      SeqEnds(E, a, b, sts[0]);
      SeqEndsAll(E, a, b, sts[1..]);
      CodeEndsAllAppend(E, b, CodeEnds(E, a, sts[0]), CodeEndsAll(E, a, sts[1..]));
    }
  }

  // ----- repeats of one byte -----

  lemma {:induction false} TestAll(E: Env, t: Test, min: nat, max: int, lazy: bool, counted: bool, sts: seq<St>)
    requires ValidMany(t, min, max)
    ensures ValidCode(Unit(Many(t, min, max, lazy, counted)))
    ensures TestEndsAll(E, t, min, max, lazy, sts) == CodeEndsAll(E, Unit(Many(t, min, max, lazy, counted)), sts)
    decreases |sts|
  {
    if sts != [] {
      UnitEnds(E, Many(t, min, max, lazy, counted), sts[0]);
      TestAll(E, t, min, max, lazy, counted, sts[1..]);
    }
  }

  lemma {:induction false} TestEndsAllOne(E: Env, t: Test, min: nat, max: int, lazy: bool, st: St)
    requires t.Valid()
    ensures TestEndsAll(E, t, min, max, lazy, [st]) == TestEnds(E, t, min, max, lazy, st)
  {
  }

  lemma {:induction false} TestEndsAllStop(E: Env, t: Test, sts: seq<St>)
    requires t.Valid()
    ensures TestEndsAll(E, t, 0, 0, false, sts) == sts
    decreases |sts|
  {
    if sts != [] {
      TestEndsAllStop(E, t, sts[1..]);
    }
  }

  /** {n,m} is {n} and then {0,m-n}. */
  lemma {:induction false} TestSplit(E: Env, t: Test, min: nat, max: int, lazy: bool, st: St)
    requires t.Valid() && max >= -1 && (max >= 0 ==> min <= max)
    ensures TestEnds(E, t, min, max, lazy, st) ==
            TestEndsAll(E, t, 0, if max < 0 then -1 else max - min, lazy, TestEnds(E, t, min, min, false, st))
    decreases min
  {
    var m := if max < 0 then -1 else max - min;
    if min == 0 {
      TestEndsAllOne(E, t, 0, m, lazy, st);
    } else {
      TestStep(E, t, min, max, lazy, st);
      TestStep(E, t, min, min, false, st);
      hide TestEnds;
      if Hit(E, t, st.pos) { TestSplit(E, t, min - 1, Dec(max), lazy, st.(pos := st.pos + 1)); }
    }
  }

  /** The first of the mandatory bytes. */
  lemma TestStep(E: Env, t: Test, min: nat, max: int, lazy: bool, st: St)
    requires t.Valid() && min > 0 && max != 0
    ensures TestEnds(E, t, min, max, lazy, st) ==
            if Hit(E, t, st.pos) then TestEnds(E, t, min - 1, Dec(max), lazy, st.(pos := st.pos + 1)) else []
  {
  }

  lemma ExactlyEnds(E: Env, t: Test, st: St)
    requires t.Valid()
    ensures NodeEnds(E, Exactly(t), st) == TestEnds(E, t, 1, 1, false, st)
  {
    if t.Char? {
      assert Hit(E, t, st.pos) ==> RunAt(E, [t.c], st.pos);
      assert RunAt(E, [t.c], st.pos) ==> SameByte(E, [t.c][0], E.s[st.pos + 0]);
    }
    if Hit(E, t, st.pos) {
      assert TestEnds(E, t, 0, 0, false, st.(pos := st.pos + 1)) == [st.(pos := st.pos + 1)];
    }
  }

  lemma {:induction false} RestEnds(E: Env, t: Test, min: nat, max: int, lazy: bool, sts: seq<St>)
    requires t.Valid() && !t.Class? && -1 <= max <= 65535 && (max >= 0 ==> min <= max)
    ensures ValidCode(LowerRest(t, min, max, lazy))
    ensures CodeEndsAll(E, LowerRest(t, min, max, lazy), sts) == TestEndsAll(E, t, 0, if max < 0 then -1 else max - min, lazy, sts)
    decreases |sts|
  {
    if max < 0 {
      TestAll(E, t, 0, -1, lazy, false, sts);
    } else if max > min {
      TestAll(E, t, 0, max - min, lazy, true, sts);
    } else {
      EmptyEnds(E, sts);
      TestEndsAllStop(E, t, sts);
      LazyStop(E, t, lazy, sts);
    }
  }

  lemma {:induction false} LazyStop(E: Env, t: Test, lazy: bool, sts: seq<St>)
    requires t.Valid()
    ensures TestEndsAll(E, t, 0, 0, lazy, sts) == TestEndsAll(E, t, 0, 0, false, sts)
    decreases |sts|
  {
    if sts != [] {
      LazyStop(E, t, lazy, sts[1..]);
    }
  }

  lemma SingleEnds(E: Env, t: Test, q: Quant, st: St)
    requires t.Valid() && !t.Class? && q.Valid() && q.Rep?
    ensures ValidCode(LowerSingle(t, q.min, q.max, q.lazy))
    ensures CodeEnds(E, LowerSingle(t, q.min, q.max, q.lazy), st) == TestEnds(E, t, q.min, q.max, q.lazy, st)
  {
    var c := LowerSingle(t, q.min, q.max, q.lazy);
    if q.max != 0 {
      RestEnds(E, t, q.min, q.max, q.lazy, TestEnds(E, t, q.min, q.min, false, st));
      if q.min == 0 || (q.min == 1 && q.max < 0) {
        UnitEnds(E, Many(t, q.min, q.max, q.lazy, false), st);
      } else {
        TestSplit(E, t, q.min, q.max, q.lazy, st);
        ExactlyEnds(E, t, st);
        assert CodeEnds(E, c, st) == CodeEndsAll(E, c.tl, NodeEnds(E, c.hd, st));
      }
    }
  }

  lemma {:induction false} SingleEndsAll(E: Env, t: Test, q: Quant, sts: seq<St>)
    requires t.Valid() && !t.Class? && q.Valid() && q.Rep?
    ensures ValidCode(LowerSingle(t, q.min, q.max, q.lazy))
    ensures CodeEndsAll(E, LowerSingle(t, q.min, q.max, q.lazy), sts) == TestEndsAll(E, t, q.min, q.max, q.lazy, sts)
    decreases |sts|
  {
    if sts != [] {
      SingleEnds(E, t, q, sts[0]);
      SingleEndsAll(E, t, q, sts[1..]);
    } else {
      SingleEnds(E, t, q, St(0, map[]));
    }
  }

  /** A run is its bytes but the last, then the last. */
  lemma RunSplit(E: Env, run: seq<byte>, st: St)
    requires |run| >= 1
    ensures var c := Char(run[|run| - 1]);
            TestEndsAll(E, c, 1, 1, false, RunEnds(E, run[..|run| - 1], st)) == RunEnds(E, run, st)
  {
    var n := |run| - 1;
    var st1 := st.(pos := st.pos + n);
    TestEndsAllOne(E, Char(run[n]), 1, 1, false, st1);
    assert forall k :: 0 <= k < n ==> run[k] == run[..n][k];
    assert RunAt(E, run, st.pos) <==> RunAt(E, run[..n], st.pos) && Hit(E, Char(run[n]), st1.pos);
  }

  /** The last byte of a run, with a quantifier, after the bytes before it. */
  lemma LastEnds(E: Env, run: seq<byte>, q: Quant, st: St)
    requires 1 <= |run| <= MAXLIT && q.Valid() && q.Rep? && !(q.min == 1 && q.max >= 0)
    ensures ValidCode(LowerLit(run, q))
    ensures CodeEnds(E, LowerLit(run, q), st) ==
            TestEndsAll(E, Char(run[|run| - 1]), q.min, q.max, q.lazy, RunEnds(E, run[..|run| - 1], st))
  {
    LitValid(run, q);
    var n := |run| - 1;
    var c, pre := Char(run[n]), RunEnds(E, run[..n], st);
    if n == 0 {
      assert run[..n] == [] && pre == [st];
      SingleEnds(E, c, q, st);
      TestEndsAllOne(E, c, q.min, q.max, q.lazy, st);
    } else {
      SingleEndsAll(E, c, q, pre);
      assert NodeEnds(E, Chars(run[..n]), st) == pre;
    }
  }

  lemma KeptEnds(E: Env, run: seq<byte>, q: Quant, st: St)
    requires 1 <= |run| <= MAXLIT && q.Valid() && q.Rep? && q.min == 1 && q.max >= 0
    ensures ValidCode(LowerLit(run, q))
    ensures CodeEnds(E, LowerLit(run, q), st) ==
            TestEndsAll(E, Char(run[|run| - 1]), q.min, q.max, q.lazy, RunEnds(E, run[..|run| - 1], st))
  {
    LitValid(run, q);
    var n := |run| - 1;
    var c, pre := Char(run[n]), RunEnds(E, run[..n], st);
    RestEnds(E, c, 1, q.max, q.lazy, RunEnds(E, run, st));
    RunSplit(E, run, st);
    if pre != [] {
      TestEndsAllOne(E, c, 1, q.max, q.lazy, pre[0]);
      TestEndsAllOne(E, c, 1, 1, false, pre[0]);
      TestSplit(E, c, 1, q.max, q.lazy, pre[0]);
    }
  }

  lemma LitEnds(E: Env, run: seq<byte>, q: Quant, st: St)
    requires 1 <= |run| <= MAXLIT && q.Valid()
    ensures ValidCode(LowerLit(run, q))
    ensures CodeEnds(E, LowerLit(run, q), st) == PieceEnds(E, Piece(Lit(run), q), st)
  {
    LitValid(run, q);
    if q.Once? {
      UnitEnds(E, Chars(run), st);
    } else if q.min == 1 && q.max >= 0 {
      KeptEnds(E, run, q, st);
    } else {
      LastEnds(E, run, q, st);
    }
  }

  lemma PlainTestEnds(E: Env, t: Test, q: Quant, st: St)
    requires t.Valid() && !t.Char? && q.Valid()
    ensures ValidCode(LowerTest(t, q))
    ensures CodeEnds(E, LowerTest(t, q), st) == PieceEnds(E, Piece(Single(t), q), st)
  {
    TestValid(t, q);
    if q.Once? {
      UnitEnds(E, One(t), st);
    } else if !t.Class? {
      SingleEnds(E, t, q, st);
    } else if q.max != 0 {
      UnitEnds(E, Many(t, q.min, q.max, q.lazy, false), st);
    }
  }

  // ----- groups -----

  /** `g` is a bracket for one pass through `alts`. */
  ghost predicate Passes(E: Env, cap: nat, alts: Alts, g: Node)
    requires ValidAlts(alts)
  {
    g.Bra? && ValidNode(g) && forall st :: PassEnds(E, g, st) == GroupEnds(E, cap, alts, st)
  }

  lemma {:induction false} PlainKet(E: Env, g: Node, start: nat, rs: seq<St>)
    requires g.Bra? && ValidNode(g) && g.ket.Plain?
    ensures KetEndsAll(E, g, start, rs) == rs
    decreases |rs|
  {
    if rs != [] {
      PlainKet(E, g, start, rs[1..]);
    }
  }

  lemma {:induction false} LoopKet(E: Env, cap: nat, alts: Alts, g: Node, start: nat, rs: seq<St>)
    requires ValidAlts(alts) && Passes(E, cap, alts, g) && !g.ket.Plain?
    ensures KetEndsAll(E, g, start, rs) == GroupMore(E, cap, alts, g.ket.Min?, start, rs)
    decreases if start < |E.s| then |E.s| - start else 0, |rs|
  {
    if rs != [] {
      var r := rs[0];
      if start < r.pos <= |E.s| {
        LoopKet(E, cap, alts, g, r.pos, GroupEnds(E, cap, alts, r));
      }
      LoopKet(E, cap, alts, g, start, rs[1..]);
    }
  }

  lemma CloseNone(start: nat, sts: seq<St>)
    ensures CloseAll(0, start, sts) == sts
  {
  }

  lemma {:induction false} WrapEnds(E: Env, c: Code, st: St)
    requires ValidCode(c)
    ensures ValidNode(Bra(0, Only(c), Plain))
    ensures NodeEnds(E, Bra(0, Only(c), Plain), st) == CodeEnds(E, c, st)
  {
    var w := Bra(0, Only(c), Plain);
    assert ValidChoice(Only(c));
    assert ChoiceEnds(E, w.alts, st) == CodeEnds(E, c, st);
    CloseNone(st.pos, CodeEnds(E, c, st));
    assert PassEnds(E, w, st) == CodeEnds(E, c, st);
    PlainKet(E, w, st.pos, CodeEnds(E, c, st));
    assert NodeEnds(E, w, st) == BraEnds(E, w, st);
  }

  lemma {:induction false} RepEnds(E: Env, cap: nat, alts: Alts, a: Choice, min: nat, max: int, lazy: bool, st: St)
    requires ValidAlts(alts) && ValidChoice(a) && Labelled(cap, a) && cap < 0x1_0000 && max >= -1
    requires forall k :: Passes(E, cap, alts, Bra(cap, a, k))
    ensures ValidCode(LowerRep(cap, a, min, max, lazy))
    ensures CodeEnds(E, LowerRep(cap, a, min, max, lazy), st) == GroupRep(E, cap, alts, min, max, lazy, st)
    decreases if max < 0 then min else max, 0
  {
    RepValid(cap, a, min, max, lazy);
    var plain, loop := Bra(cap, a, Plain), Bra(cap, a, Loop(lazy));
    assert Passes(E, cap, alts, plain) && Passes(E, cap, alts, loop);
    var once := GroupEnds(E, cap, alts, st);
    if max == 0 {
    } else if max < 0 && min <= 1 {
      LoopKet(E, cap, alts, loop, st.pos, once);
      assert NodeEnds(E, loop, st) == BraEnds(E, loop, st);
      UnitEnds(E, if min == 0 then Zero(loop, lazy) else loop, st);
    } else {
      var rest := LowerRep(cap, a, Pred(min), Dec(max), lazy);
      RepEndsAll(E, cap, alts, a, Pred(min), Dec(max), lazy, once);
      PlainKet(E, plain, st.pos, once);
      assert NodeEnds(E, plain, st) == BraEnds(E, plain, st) == once;
      var copies := Then(plain, rest);
      assert CodeEnds(E, copies, st) == CodeEndsAll(E, rest, once);
      if min == 0 {
        WrapEnds(E, copies, st);
        if max == 1 { EmptyEnds(E, once); }
        UnitEnds(E, LowerRep(cap, a, min, max, lazy).hd, st);
      }
    }
  }

  lemma {:induction false} RepEndsAll(E: Env, cap: nat, alts: Alts, a: Choice, min: nat, max: int, lazy: bool, sts: seq<St>)
    requires ValidAlts(alts) && ValidChoice(a) && Labelled(cap, a) && cap < 0x1_0000 && max >= -1
    requires forall k :: Passes(E, cap, alts, Bra(cap, a, k))
    ensures ValidCode(LowerRep(cap, a, min, max, lazy))
    ensures CodeEndsAll(E, LowerRep(cap, a, min, max, lazy), sts) == GroupRepAll(E, cap, alts, min, max, lazy, sts)
    decreases if max < 0 then min else max, 1, |sts|
  {
    RepValid(cap, a, min, max, lazy);
    if sts != [] {
      RepEnds(E, cap, alts, a, min, max, lazy, sts[0]);
      RepEndsAll(E, cap, alts, a, min, max, lazy, sts[1..]);
    }
  }

  lemma TaggedEnds(E: Env, cap: nat, a: Choice, st: St)
    requires ValidChoice(a) && cap < 0x1_0000
    ensures ValidChoice(Tagged(cap, a))
    ensures ChoiceEnds(E, Tagged(cap, a), st) == ChoiceEnds(E, a, st)
  {
    if cap > EXTRACT_BASIC_MAX {
      assert ValidCode(Then(Number(cap), a.c));
      OneEnds(E, a.c, st);
      assert CodeEnds(E, Then(Number(cap), a.c), st) == CodeEnds(E, a.c, st);
    }
  }

  lemma {:induction false} GroupPasses(E: Env, cap: nat, alts: Alts)
    requires ValidAlts(alts) && cap < 0x1_0000
    ensures ValidChoice(Tagged(cap, LowerAlts(alts)))
    ensures forall k :: Passes(E, cap, alts, Bra(cap, Tagged(cap, LowerAlts(alts)), k))
    decreases alts, 1
  {
    AltsValid(alts);
    var a := Tagged(cap, LowerAlts(alts));
    assert ValidCode(a.c) && ValidChoice(a);
    forall k ensures Passes(E, cap, alts, Bra(cap, a, k)) {
      forall st ensures PassEnds(E, Bra(cap, a, k), st) == GroupEnds(E, cap, alts, st) {
        TaggedEnds(E, cap, LowerAlts(alts), st);
        AltsEndsKept(E, alts, st);
      }
    }
  }

  // ----- the theorem -----

  lemma {:induction false} PieceEndsKept(E: Env, p: Piece, st: St)
    requires ValidAtom(p.a) && p.q.Valid()
    ensures ValidCode(LowerPiece(p))
    ensures CodeEnds(E, LowerPiece(p), st) == PieceEnds(E, p, st)
    decreases p
  {
    PieceValid(p);
    match p.a
    case Lit(run) => LitEnds(E, run, p.q, st);
    case Single(t) => PlainTestEnds(E, t, p.q, st);
    case Circ => UnitEnds(E, AtStart, st);
    case Doll => UnitEnds(E, AtEnd, st);
    case Group(cap, alts) =>
      GroupPasses(E, cap, alts);
      var a := Tagged(cap, LowerAlts(alts));
      var plain := Bra(cap, a, Plain);
      if p.q.Once? {
        assert Passes(E, cap, alts, plain);
        PlainKet(E, plain, st.pos, PassEnds(E, plain, st));
        UnitEnds(E, plain, st);
        assert NodeEnds(E, plain, st) == BraEnds(E, plain, st);
      } else {
        RepEnds(E, cap, alts, a, p.q.min, p.q.max, p.q.lazy, st);
      }
  }

  lemma {:induction false} BranchEndsKept(E: Env, b: Branch, st: St)
    requires ValidBranch(b)
    ensures ValidCode(LowerBranch(b))
    ensures CodeEnds(E, LowerBranch(b), st) == BranchEnds(E, b, st)
    decreases b, 0
  {
    BranchValid(b);
    if b.Cons? {
      PieceEndsKept(E, b.hd, st);
      BranchEndsKeptAll(E, b.tl, PieceEnds(E, b.hd, st));
      SeqEnds(E, LowerPiece(b.hd), LowerBranch(b.tl), st);
    }
  }

  lemma {:induction false} BranchEndsKeptAll(E: Env, b: Branch, sts: seq<St>)
    requires ValidBranch(b)
    ensures ValidCode(LowerBranch(b))
    ensures CodeEndsAll(E, LowerBranch(b), sts) == BranchEndsAll(E, b, sts)
    decreases b, 1, |sts|
  {
    BranchValid(b);
    if sts != [] {
      BranchEndsKept(E, b, sts[0]);
      BranchEndsKeptAll(E, b, sts[1..]);
    }
  }

  /** Lowering keeps the ordered list of ways to match, captures included. */
  lemma {:induction false} AltsEndsKept(E: Env, alts: Alts, st: St)
    requires ValidAlts(alts)
    ensures ValidChoice(LowerAlts(alts))
    ensures ChoiceEnds(E, LowerAlts(alts), st) == AltsEnds(E, alts, st)
    decreases alts, 0
  {
    AltsValid(alts);
    BranchEndsKept(E, alts.b, st);
    if alts.Alt? {
      AltsEndsKept(E, alts.more, st);
    }
  }
}
