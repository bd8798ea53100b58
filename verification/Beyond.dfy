/**
 * Outside the exact fragment `match` can miss a match that the language has: an extra block on
 * the chain of saved positions makes a pass that consumed something look like an empty one.
 */
module Beyond {
  import opened Wrappers
  import opened Bytes
  import opened Subject
  import opened Regex
  import opened Language
  import opened Program
  import opened Lower
  import opened Machine
  import opened Correct

  const A: byte := 97
  const B: byte := 98

  function Seq1(a: Atom, q: Quant, tl: Branch): Branch {
    Cons(Piece(a, q), tl)
  }

  /** `(?:b)??` */
  const OPTIONAL_B: Branch := Seq1(Group(0, Last(Seq1(Lit([B]), Once, Nil))), Rep(0, 1, true), Nil)

  /** `a(?:b)??` */
  const BODY: Alts := Last(Seq1(Lit([A]), Once, OPTIONAL_B))

  /** `(?:a(?:b)??)*$` */
  const MISSED: Alts := Last(Seq1(Group(0, BODY), Rep(0, -1, false), Seq1(Doll, Once, Nil)))

  const OPTIONAL_NODE: Node := Zero(Bra(0, Only(Then(Chars([B]), Empty)), Plain), true)
  const LOOP_NODE: Node := Bra(0, Only(Then(Chars([A]), Then(OPTIONAL_NODE, Empty))), Max)
  const ROOT_CODE: Code := Then(Zero(LOOP_NODE, false), Then(AtEnd, Empty))

  lemma MissedValid()
    ensures ValidAlts(Last(Seq1(Lit([B]), Once, Nil))) && ValidBranch(OPTIONAL_B) && ValidBranch(BODY.b) && ValidAlts(BODY)
    ensures ValidBranch(MISSED.b) && ValidBranch(MISSED.b.tl) && ValidAlts(MISSED)
  {
    var b := Seq1(Lit([B]), Once, Nil);
    assert ValidBranch(Nil) && ValidBranch(b) && ValidAlts(Last(b));
    assert ValidAtom(Group(0, Last(b))) && ValidBranch(OPTIONAL_B);
    assert ValidBranch(BODY.b) && ValidAlts(BODY);
    assert ValidAtom(Group(0, BODY));
    assert ValidBranch(MISSED.b.tl);
  }

  lemma OptionalCode()
    ensures ValidBranch(OPTIONAL_B) && LowerBranch(OPTIONAL_B) == Then(OPTIONAL_NODE, Empty)
  {
    MissedValid();
    var b := Seq1(Lit([B]), Once, Nil);
    assert LowerBranch(Nil) == Empty;
    assert LowerPiece(b.hd) == Unit(Chars([B])) && b.tl == Nil;
    assert LowerBranch(b) == Append(Unit(Chars([B])), Empty) == Then(Chars([B]), Empty);
    assert Last(b).b == b && LowerAlts(Last(b)) == Only(LowerBranch(b));
    var a := Only(Then(Chars([B]), Empty));
    assert Tagged(0, a) == a && LowerRep(0, a, 0, 1, true) == Unit(OPTIONAL_NODE);
    assert LowerPiece(OPTIONAL_B.hd) == Unit(OPTIONAL_NODE) && OPTIONAL_B.tl == Nil;
    assert LowerBranch(OPTIONAL_B) == Append(Unit(OPTIONAL_NODE), Empty);
  }

  lemma BodyCode()
    ensures ValidAlts(BODY) && LowerAlts(BODY) == LOOP_NODE.alts
  {
    MissedValid();
    OptionalCode();
    assert LowerPiece(BODY.b.hd) == Unit(Chars([A]));
    assert LowerBranch(BODY.b) == Append(Unit(Chars([A])), LowerBranch(OPTIONAL_B));
    assert Append(Unit(Chars([A])), Then(OPTIONAL_NODE, Empty)) == LOOP_NODE.alts.c;
    assert LowerAlts(BODY) == Only(LowerBranch(BODY.b));
  }

  lemma MissedCode()
    ensures ValidAlts(MISSED) && LowerPattern(MISSED) == Bra(0, Only(ROOT_CODE), Plain)
  {
    MissedValid();
    BodyCode();
    var end := MISSED.b.tl;
    assert LowerBranch(Nil) == Empty && LowerPiece(end.hd) == Unit(AtEnd);
    assert LowerBranch(end) == Then(AtEnd, Empty);
    assert LowerPiece(MISSED.b.hd) == Unit(Zero(LOOP_NODE, false));
    assert LowerBranch(MISSED.b) == Append(Unit(Zero(LOOP_NODE, false)), LowerBranch(end));
  }

  lemma BodySpan(E: Env, i: nat)
    requires E.s == [A, A] && !E.opt.caseless && i < 2
    ensures ValidAlts(BODY) && LangAlts(E, BODY, i, i + 1)
  {
    MissedValid();
    var b := Seq1(Lit([B]), Once, Nil);
    assert LangRun(E, [A], i, i + 1);
    assert LangPower(E, Last(b), 0, i + 1, i + 1) && Allowed(Rep(0, 1, true), 0);
    assert LangPiece(E, OPTIONAL_B.hd, i + 1, i + 1) && LangBranch(E, Nil, i + 1, i + 1);
    assert LangPiece(E, BODY.b.hd, i, i + 1) && LangBranch(E, OPTIONAL_B, i + 1, i + 1);
  }

  /** The language has the whole subject... */
  lemma MissedSpan(E: Env)
    requires E.s == [A, A] && !E.opt.caseless && !E.opt.multiline && !E.noteol
    ensures ValidAlts(MISSED) && LangAlts(E, MISSED, 0, 2)
  {
    MissedValid();
    BodySpan(E, 0);
    BodySpan(E, 1);
    assert LangPower(E, BODY, 0, 2, 2);
    PowerStep(E, BODY, 0, 1, 2, 2);
    PowerStep(E, BODY, 1, 0, 1, 2);
    assert LangPower(E, BODY, 2, 0, 2) && Allowed(Rep(0, -1, false), 2);
    assert LangPiece(E, MISSED.b.hd, 0, 2);
    assert DollAt(E, 2) && LangBranch(E, Nil, 2, 2) && LangPiece(E, MISSED.b.tl.hd, 2, 2);
    assert LangBranch(E, MISSED.b.tl, 2, 2);
  }

  // ----- the run -----

  ghost predicate Setting(E: Env) {
    E.s == [A, A] && !E.opt.caseless && !E.opt.multiline && !E.noteol
  }

  /** What is left outside the repeated group: `$`, then the end. */
  function Rest(): Todo {
    In(Then(AtEnd, Empty), NoMore, Bra(0, Only(ROOT_CODE), Plain), 0, Top(Empty, -1))
  }

  /** `$` does not hold after the first byte, or before it. */
  lemma RestFails(E: Env, st: St, b: Chain)
    requires Setting(E) && st.pos < 2 && Fit(E, Rest(), st, b)
    ensures Run(E, Rest(), st, b) == None
  {
    RunItem(E, Rest(), st, b);
  }

  /** In the group, after `a`: the block that skipping `(?:b)` leaves is taken for the start of the pass. */
  lemma PassFails(E: Env, b: Chain)
    requires Setting(E)
    requires var k := In(Then(OPTIONAL_NODE, Empty), NoMore, LOOP_NODE, 0, Rest()); Fit(E, k, St(1, map[]), b)
    ensures var k := In(Then(OPTIONAL_NODE, Empty), NoMore, LOOP_NODE, 0, Rest()); Run(E, k, St(1, map[]), b) == None
  {
    var k, st := In(Then(OPTIONAL_NODE, Empty), NoMore, LOOP_NODE, 0, Rest()), St(1, map[]);
    RunZero(E, k, st, b);
    var end, b1 := Next(k), Block(1, b);
    RunKet(E, end, st, b1);
    RestFails(E, st, b);
    var again := Push(OPTIONAL_NODE.g, end);
    RunBra(E, again, st, b);
    RunChoiceStep(E, OPTIONAL_NODE.g.alts, OPTIONAL_NODE.g, Next(again), st, b);
    var inner := Enter(OPTIONAL_NODE.g.alts, OPTIONAL_NODE.g, 1, Next(again));
    RunItem(E, inner, st, Block(1, b));
    assert !RunAt(E, [B], 1) by { assert !SameByte(E, [B][0], E.s[1 + 0]); }
  }

  lemma LoopFails(E: Env, b: Chain)
    requires Setting(E) && Fit(E, Push(LOOP_NODE, Rest()), St(0, map[]), b)
    ensures Run(E, Push(LOOP_NODE, Rest()), St(0, map[]), b) == None
  {
    hide Run;
    var k, st := Push(LOOP_NODE, Rest()), St(0, map[]);
    RunBra(E, k, st, b);
    assert Next(k) == Rest();
    RunChoiceStep(E, LOOP_NODE.alts, LOOP_NODE, Rest(), st, b);
    var k1, b1 := Enter(LOOP_NODE.alts, LOOP_NODE, 0, Rest()), Block(0, b);
    RunItem(E, k1, st, b1);
    assert RunAt(E, [A], 0) by { assert SameByte(E, [A][0], E.s[0 + 0]); }
    PassFails(E, b1);
  }

  /** ... but `match` fails at the start of the subject: `(?:a(?:b)??)*$` against "aa". */
  lemma Missed(E: Env)
    requires Setting(E)
    ensures ValidAlts(MISSED) && LangAlts(E, MISSED, 0, 2) && Attempt(E, MISSED, -1, 0) == None
  {
    hide Run;
    MissedSpan(E);
    MissedCode();
    var k, st, b := Begin(MISSED, -1), St(0, map[]), Block(0, Null);
    BeginFit(E, MISSED, -1, 0);
    var root := LowerPattern(MISSED);
    RunBra(E, k, st, b);
    RunChoiceStep(E, root.alts, root, Next(k), st, b);
    var k1, b1 := Enter(root.alts, root, 0, Next(k)), Block(0, b);
    assert Next(k) == Top(Empty, -1) && k1 == In(ROOT_CODE, NoMore, root, 0, Top(Empty, -1));
    RunZero(E, k1, st, b1);
    assert Next(k1) == Rest();
    RestFails(E, st, b1);
    LoopFails(E, Block(0, b1));
  }

  /** `a(?:b)??c` */
  const LAZY: Alts := Last(Seq1(Lit([A]), Once, Seq1(Group(0, Last(Seq1(Lit([B]), Once, Nil))), Rep(0, 1, true), Seq1(Lit([B + 1]), Once, Nil))))

  /** `(?:a*)*` */
  const STARS: Alts := Last(Seq1(Group(0, Last(Seq1(Lit([A]), Rep(0, -1, false), Nil))), Rep(0, -1, false), Nil))

  lemma Flat(a: Atom, q: Quant, tl: Branch, open: bool)
    requires !a.Group?
    ensures ExactBranch(Seq1(a, q, tl), open) == ExactBranch(tl, open)
  {
    assert ExactPiece(Piece(a, q), open && NullableBranch(tl));
  }

  lemma EndExact()
    ensures ExactBranch(Nil, false) && ExactBranch(Nil, true)
  {
  }

  lemma Alone(b: Branch, open: bool)
    ensures ExactIn(Last(b), open) == ExactBranch(b, open)
  {
  }

  lemma Wrapped(alts: Alts, q: Quant, tl: Branch, open: bool)
    ensures ExactBranch(Seq1(Group(0, alts), q, tl), open)
         == (ExactPiece(Piece(Group(0, alts), q), open && NullableBranch(tl)) && ExactBranch(tl, open))
  {
  }

  lemma LazyExact()
    ensures ExactAlts(LAZY)
  {
    hide ExactBranch, ExactIn;
    var b, c := Seq1(Lit([B]), Once, Nil), Seq1(Lit([B + 1]), Once, Nil);
    var g := Seq1(Group(0, Last(b)), Rep(0, 1, true), c);
    EndExact();
    Flat(Lit([B]), Once, Nil, false);
    Flat(Lit([B + 1]), Once, Nil, false);
    Alone(b, false);
    Wrapped(Last(b), Rep(0, 1, true), c, false);
    Flat(Lit([A]), Once, g, false);
    Alone(LAZY.b, false);
  }

  lemma StarsExact()
    ensures ExactAlts(STARS)
  {
    hide ExactBranch, ExactIn;
    var a := Seq1(Lit([A]), Rep(0, -1, false), Nil);
    EndExact();
    Flat(Lit([A]), Rep(0, -1, false), Nil, true);
    Alone(a, true);
    Wrapped(Last(a), Rep(0, -1, false), Nil, false);
    Alone(STARS.b, false);
  }

  lemma MissedNotExact()
    ensures !ExactAlts(MISSED)
  {
    hide ExactBranch, ExactIn;
    Wrapped(Last(Seq1(Lit([B]), Once, Nil)), Rep(0, 1, true), Nil, true);
    assert NullableBranch(Nil);
    Flat(Lit([A]), Once, OPTIONAL_B, true);
    Alone(BODY.b, true);
    Wrapped(BODY, Rep(0, -1, false), MISSED.b.tl, false);
    Alone(MISSED.b, false);
  }

  /** On either side of the boundary. */
  lemma Boundary()
    ensures ExactAlts(LAZY) && ExactAlts(STARS) && !ExactAlts(MISSED)
  {
    hide ExactAlts;
    LazyExact();
    StarsExact();
    MissedNotExact();
  }
}
