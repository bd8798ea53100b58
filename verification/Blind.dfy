/**
 * Under CASELESS the case of the subject does not matter: flipping the case of any of its bytes
 * leaves the outcome of every attempt as it was, captures included.
 */
module Blind {
  import opened Wrappers
  import opened Bytes
  import opened Subject
  import opened Regex
  import opened Program
  import opened Lower
  import opened Machine
  import opened Correct

  /** Both cases of a byte have one lower-case form and the same types; newline has no other case. */
  ghost predicate CaseBlind(tab: TableSet) {
    Flips(tab) &&
    forall c: byte ::
      && (forall n :: n in {CTYPE_SPACE, CTYPE_DIGIT, CTYPE_WORD} ==> BitSet(tab.ctypes[tab.fcc[c]], n) == BitSet(tab.ctypes[c], n))
      && (tab.fcc[c] == NEWLINE <==> c == NEWLINE)
  }

  /** A class has both cases of a byte or neither. */
  ghost predicate BlindTest(tab: TableSet, t: Test) {
    t.Valid() && (t.Class? ==> forall c: byte :: InMap(t.bits, tab.fcc[c]) == InMap(t.bits, c))
  }

  ghost predicate BlindBranch(tab: TableSet, b: Branch)
    decreases b
  {
    b.Cons? ==>
      && (b.hd.a.Single? ==> BlindTest(tab, b.hd.a.t))
      && (b.hd.a.Group? ==> BlindAlts(tab, b.hd.a.alts)) && BlindBranch(tab, b.tl)
  }

  ghost predicate BlindAlts(tab: TableSet, alts: Alts)
    decreases alts
  {
    BlindBranch(tab, alts.b) && (alts.Alt? ==> BlindAlts(tab, alts.more))
  }

  // ----- on program trees -----

  ghost predicate BlindNode(tab: TableSet, n: Node) {
    match n
    case One(t) => BlindTest(tab, t)
    case Many(t, _, _, _, _) => BlindTest(tab, t)
    case Bra(_, alts, _) => BlindChoice(tab, alts)
    case Zero(g, _) => BlindNode(tab, g)
    case _ => true
  }

  ghost predicate BlindCode(tab: TableSet, c: Code) {
    c.Then? ==> BlindNode(tab, c.hd) && BlindCode(tab, c.tl)
  }

  ghost predicate BlindChoice(tab: TableSet, a: Choice) {
    BlindCode(tab, a.c) && (a.Or? ==> BlindChoice(tab, a.more))
  }

  lemma {:induction false} AppendBlind(tab: TableSet, a: Code, b: Code)
    requires BlindCode(tab, a) && BlindCode(tab, b)
    ensures BlindCode(tab, Append(a, b))
  {
    if a.Then? { AppendBlind(tab, a.tl, b); }
  }

  lemma {:induction false} RepBlind(tab: TableSet, cap: nat, a: Choice, min: nat, max: int, lazy: bool)
    requires max >= -1 && BlindChoice(tab, a)
    ensures BlindCode(tab, LowerRep(cap, a, min, max, lazy))
    decreases if max < 0 then min else max
  {
    assert BlindNode(tab, Bra(cap, a, Plain)) && BlindNode(tab, Bra(cap, a, Loop(lazy)));
    if max != 0 && !(max < 0 && min <= 1) {
      RepBlind(tab, cap, a, Pred(min), Dec(max), lazy);
      assert BlindChoice(tab, Only(Then(Bra(cap, a, Plain), LowerRep(cap, a, Pred(min), Dec(max), lazy))));
    }
  }

  lemma SingleBlind(tab: TableSet, t: Test, min: nat, max: int, lazy: bool)
    requires BlindTest(tab, t)
    ensures BlindCode(tab, LowerSingle(t, min, max, lazy)) && BlindCode(tab, LowerRest(t, min, max, lazy)) && BlindNode(tab, Exactly(t))
  {
  }

  lemma {:induction false} PieceBlind(tab: TableSet, p: Piece)
    requires ValidAtom(p.a) && p.q.Valid() && (p.a.Single? ==> BlindTest(tab, p.a.t)) && (p.a.Group? ==> BlindAlts(tab, p.a.alts))
    ensures BlindCode(tab, LowerPiece(p))
    decreases p
  {
    match p.a
    case Lit(run) =>
      if p.q.Rep? { SingleBlind(tab, Char(run[|run| - 1]), p.q.min, p.q.max, p.q.lazy); }
    case Single(t) =>
      if p.q.Rep? { SingleBlind(tab, t, p.q.min, p.q.max, p.q.lazy); }
    case Circ =>
    case Doll =>
    case Group(cap, alts) =>
      AltsBlind(tab, alts);
      assert BlindChoice(tab, Tagged(cap, LowerAlts(alts)));
      if p.q.Rep? { RepBlind(tab, cap, Tagged(cap, LowerAlts(alts)), p.q.min, p.q.max, p.q.lazy); }
  }

  lemma {:induction false} BranchBlind(tab: TableSet, b: Branch)
    requires ValidBranch(b) && BlindBranch(tab, b)
    ensures BlindCode(tab, LowerBranch(b))
    decreases b
  {
    if b.Cons? {
      PieceBlind(tab, b.hd);
      BranchBlind(tab, b.tl);
      AppendBlind(tab, LowerPiece(b.hd), LowerBranch(b.tl));
    }
  }

  lemma {:induction false} AltsBlind(tab: TableSet, alts: Alts)
    requires ValidAlts(alts) && BlindAlts(tab, alts)
    ensures BlindChoice(tab, LowerAlts(alts))
    decreases alts
  {
    BranchBlind(tab, alts.b);
    if alts.Alt? { AltsBlind(tab, alts.more); }
  }

  // ----- running -----

  /** `F` is `E` with the case of some subject bytes flipped. */
  ghost predicate Flipped(E: Env, F: Env) {
    && F.tab == E.tab && F.opt == E.opt && F.notbol == E.notbol && F.noteol == E.noteol && |F.s| == |E.s|
    && forall i :: 0 <= i < |E.s| ==> F.s[i] == E.s[i] || F.s[i] == E.tab.fcc[E.s[i]]
  }

  ghost predicate Setting(E: Env, F: Env) {
    CaseBlind(E.tab) && E.opt.caseless && Flipped(E, F)
  }

  lemma HitBlind(E: Env, F: Env, t: Test, i: nat)
    requires Setting(E, F) && BlindTest(E.tab, t)
    ensures Hit(F, t, i) == Hit(E, t, i)
  {
    if i < |E.s| {
      var c := E.s[i];
      assert E.tab.lcc[E.tab.fcc[c]] == E.tab.lcc[c];
      assert forall n :: n in {CTYPE_SPACE, CTYPE_DIGIT, CTYPE_WORD} ==> BitSet(E.tab.ctypes[E.tab.fcc[c]], n) == BitSet(E.tab.ctypes[c], n);
      assert E.tab.fcc[c] == NEWLINE <==> c == NEWLINE;
      hide BitSet;
      assert CTYPE_SPACE in {CTYPE_SPACE, CTYPE_DIGIT, CTYPE_WORD} && CTYPE_DIGIT in {CTYPE_SPACE, CTYPE_DIGIT, CTYPE_WORD}
             && CTYPE_WORD in {CTYPE_SPACE, CTYPE_DIGIT, CTYPE_WORD};
    }
  }

  lemma RunAtBlind(E: Env, F: Env, run: seq<byte>, i: nat)
    requires Setting(E, F)
    ensures RunAt(F, run, i) == RunAt(E, run, i)
  {
    if i + |run| <= |E.s| {
      forall n | 0 <= n < |run| ensures SameByte(F, run[n], F.s[i + n]) == SameByte(E, run[n], E.s[i + n]) {
        assert E.tab.lcc[E.tab.fcc[E.s[i + n]]] == E.tab.lcc[E.s[i + n]];
      }
    }
  }

  lemma NewlineBlind(E: Env, F: Env, i: nat)
    requires Setting(E, F) && i <= |E.s|
    ensures CircAt(F, i) == CircAt(E, i) && DollAt(F, i) == DollAt(E, i)
  {
    assert forall k :: 0 <= k < |E.s| ==> (F.s[k] == NEWLINE <==> E.s[k] == NEWLINE);
  }

  lemma {:induction false} ReachBlind(E: Env, F: Env, t: Test, i: nat, n: nat)
    requires Setting(E, F) && BlindTest(E.tab, t)
    ensures Reach(F, t, i, n) == Reach(E, t, i, n)
    decreases n
  {
    HitBlind(E, F, t, i);
    if n > 0 && Hit(E, t, i) { ReachBlind(E, F, t, i + 1, n - 1); }
  }

  ghost predicate BlindTodo(tab: TableSet, k: Todo) {
    BlindCode(tab, k.rest) && (k.In? ==> BlindNode(tab, k.g) && BlindTodo(tab, k.up))
  }

  lemma BlindNext(tab: TableSet, k: Todo)
    requires BlindTodo(tab, k) && k.rest.Then?
    ensures var n := k.rest.hd;
            && BlindTodo(tab, Next(k)) && BlindNode(tab, n)
            && (n.One? || n.Many? ==> BlindTest(tab, n.t)) && (n.Bra? ==> BlindChoice(tab, n.alts))
            && (n.Zero? ==> BlindNode(tab, n.g) && BlindTodo(tab, Push(n.g, Next(k))))
  {
    assert BlindNode(tab, k.rest.hd) && BlindCode(tab, k.rest.tl);
  }

  lemma {:induction false} RunBlind(E: Env, F: Env, k: Todo, st: St, b: Chain)
    requires Setting(E, F) && Fit(E, k, st, b) && BlindTodo(E.tab, k)
    ensures Fit(F, k, st, b) && Run(F, k, st, b) == Run(E, k, st, b)
    decreases |E.s| - st.pos, Weight(k, st.pos), 1, 0
  {
    hide Run, BlindTest, Setting, Weight;
    Kept(E, F, k, st, b);
    if k.rest.Empty? {
      EndBlind(E, F, k, st, b);
    } else {
      BlindNext(E.tab, k);
      FitNext(E, k, st, b, 0);
      assert st.(pos := st.pos + 0) == st;
      match k.rest.hd
      case Many(_, _, _, _, _) => ManyBlind(E, F, k, st, b);
      case Bra(_, alts, _) =>
        RunBra(E, k, st, b);
        RunBra(F, k, st, b);
        ChoiceBlind(E, F, alts, k.rest.hd, Next(k), st, b);
      case Zero(_, _) =>
        RunZero(E, k, st, b);
        RunZero(F, k, st, b);
        ZeroBlind(E, F, k, st, b);
      case _ => ItemBlind(E, F, k, st, b);
    }
  }

  lemma Kept(E: Env, F: Env, k: Todo, st: St, b: Chain)
    requires Setting(E, F) && Fit(E, k, st, b)
    ensures |F.s| == |E.s| && Fit(F, k, st, b)
  {
  }

  lemma {:induction false} ItemBlind(E: Env, F: Env, k: Todo, st: St, b: Chain)
    requires Setting(E, F) && Fit(E, k, st, b) && BlindTodo(E.tab, k)
    requires k.rest.Then? && !k.rest.hd.Many? && !k.rest.hd.Bra? && !k.rest.hd.Zero?
    ensures Fit(F, k, st, b) && Run(F, k, st, b) == Run(E, k, st, b)
    decreases |E.s| - st.pos, Weight(k, st.pos), 0, 0
  {
    hide Run, Setting, BlindTest, Weight;
    BlindNext(E.tab, k);
    Kept(E, F, k, st, b);
    RunItem(E, k, st, b);
    RunItem(F, k, st, b);
    FitNext(E, k, st, b, 0);
    var n := k.rest.hd;
    NewlineBlind(E, F, st.pos);
    if n.One? { HitBlind(E, F, n.t, st.pos); }
    if n.Chars? { RunAtBlind(E, F, n.run, st.pos); }
    assert Fits(E, n, st.pos) == Fits(F, n, st.pos);
    if Fits(E, n, st.pos) { RunBlind(E, F, Next(k), st.(pos := st.pos + Width(n)), b); }
  }

  lemma {:induction false} ManyBlind(E: Env, F: Env, k: Todo, st: St, b: Chain)
    requires Setting(E, F) && Fit(E, k, st, b) && BlindTodo(E.tab, k) && k.rest.Then? && k.rest.hd.Many?
    ensures Fit(F, k, st, b) && Run(F, k, st, b) == Run(E, k, st, b)
    decreases |E.s| - st.pos, Weight(k, st.pos), 0, 0
  {
    hide Run, Setting, BlindTest, Weight;
    BlindNext(E.tab, k);
    Kept(E, F, k, st, b);
    RunMany(E, k, st, b);
    RunMany(F, k, st, b);
    var n := k.rest.hd;
    var r := Reach(E, n.t, st.pos, Limit(E, n.max, st.pos));
    ReachBlind(E, F, n.t, st.pos, Limit(E, n.max, st.pos));
    if r >= n.min { SpanBlind(E, F, Next(k), st, b, n.lazy, n.min, r); }
  }

  lemma {:induction false} SpanBlind(E: Env, F: Env, k: Todo, st: St, b: Chain, lazy: bool, lo: nat, hi: nat)
    requires Setting(E, F) && Fit(E, k, st, b) && BlindTodo(E.tab, k) && lo <= hi && st.pos + hi <= |E.s|
    ensures Fit(F, k, st, b) && |F.s| == |E.s|
    ensures lazy ==> RunUp(F, k, st, b, lo, hi) == RunUp(E, k, st, b, lo, hi)
    ensures !lazy ==> RunDown(F, k, st, b, lo, hi) == RunDown(E, k, st, b, lo, hi)
    decreases |E.s| - st.pos, Weight(k, st.pos), 2, hi - lo
  {
    hide Run, Setting, BlindTest, Weight;
    Kept(E, F, k, st, b);
    var n := if lazy then lo else hi;
    WeightOn(k, st.pos, n);
    RunBlind(E, F, k, st.(pos := st.pos + n), b);
    if lazy {
      RunUpStep(E, k, st, b, lo, hi);
      RunUpStep(F, k, st, b, lo, hi);
    } else {
      RunDownStep(E, k, st, b, lo, hi);
      RunDownStep(F, k, st, b, lo, hi);
    }
    if lo < hi { SpanBlind(E, F, k, st, b, lazy, if lazy then lo + 1 else lo, if lazy then hi else hi - 1); }
  }

  lemma WeightOn(k: Todo, pos: nat, n: nat)
    ensures n == 0 ==> Weight(k, pos + n) == Weight(k, pos)
  {
  }

  lemma {:induction false} ChoiceBlind(E: Env, F: Env, a: Choice, g: Node, k: Todo, st: St, b: Chain)
    requires Setting(E, F) && Fit(E, k, st, b) && ValidChoice(a) && g.Bra? && ValidNode(g)
    requires BlindTodo(E.tab, k) && BlindChoice(E.tab, a) && BlindNode(E.tab, g)
    ensures Fit(F, k, st, b) && RunChoice(F, a, g, k, st, b) == RunChoice(E, a, g, k, st, b)
    decreases |E.s| - st.pos, ChoiceSize(a) + 1 + Weight(k, st.pos), 2, 0
  {
    hide Run, RunChoice, Setting, BlindTest, Weight, ChoiceSize;
    Kept(E, F, k, st, b);
    RunChoiceStep(E, a, g, k, st, b);
    RunChoiceStep(F, a, g, k, st, b);
    RunBlind(E, F, Enter(a, g, st.pos, k), st, Block(st.pos, b));
    if a.Or? { ChoiceBlind(E, F, a.more, g, k, st, b); }
  }

  lemma {:induction false} ZeroBlind(E: Env, F: Env, k: Todo, st: St, b: Chain)
    requires Setting(E, F) && Fit(E, k, st, b) && BlindTodo(E.tab, k) && k.rest.Then? && k.rest.hd.Zero?
    ensures Fit(F, k, st, b) && Run(F, k, st, b) == Run(E, k, st, b)
    decreases |E.s| - st.pos, Weight(k, st.pos), 0, 0
  {
    hide Run, Setting, BlindTest, Weight;
    BlindNext(E.tab, k);
    Kept(E, F, k, st, b);
    RunZero(E, k, st, b);
    RunZero(F, k, st, b);
    var g, lazy, next, b1 := k.rest.hd.g, k.rest.hd.lazy, Next(k), Block(st.pos, b);
    RunBlind(E, F, next, st, if lazy then b1 else b);
    RunBlind(E, F, Push(g, next), st, if lazy then b else b1);
  }

  lemma {:induction false} EndBlind(E: Env, F: Env, k: Todo, st: St, b: Chain)
    requires Setting(E, F) && Fit(E, k, st, b) && BlindTodo(E.tab, k) && k.rest.Empty?
    ensures Fit(F, k, st, b) && Run(F, k, st, b) == Run(E, k, st, b)
    decreases |E.s| - st.pos, Weight(k, st.pos), 0, 0
  {
    Kept(E, F, k, st, b);
    if k.In? {
      hide Run, Setting, BlindTest, Weight;
      RunKet(E, k, st, b);
      RunKet(F, k, st, b);
      PushWeight(k.g, k.up, st.pos);
      var closed := Close(k.g.cap, k.start, st);
      RunBlind(E, F, k.up, closed, b.prev);
      if !k.g.ket.Plain? && st.pos != b.at {
        assert BlindTodo(E.tab, Push(k.g, k.up));
        RunBlind(E, F, Push(k.g, k.up), closed, Block(st.pos, b.prev));
      }
    } else {
      assert Run(E, k, st, b) == RunEnd(E, k, st, b) && Run(F, k, st, b) == RunEnd(F, k, st, b);
    }
  }

  /** No attempt tells the two subjects apart. */
  lemma AttemptBlind(E: Env, F: Env, alts: Alts, veto: int, i: nat)
    requires Setting(E, F) && ValidAlts(alts) && BlindAlts(E.tab, alts) && i <= |E.s|
    ensures |F.s| == |E.s| && Attempt(F, alts, veto, i) == Attempt(E, alts, veto, i)
  {
    hide Run;
    BeginFit(E, alts, veto, i);
    AltsBlind(E.tab, alts);
    assert BlindCode(E.tab, Unit(LowerPattern(alts)));
    RunBlind(E, F, Begin(alts, veto), St(i, map[]), Block(i, Null));
  }
}
