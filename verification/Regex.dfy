/**
 * Patterns as the compiler reads them (atoms with an optional quantifier), with two meanings:
 * the language of spans (Lang...) and textbook ordered backtracking (...Ends), which lists
 * every way to match from a position in the order a backtracking matcher tries them.
 */
module Regex {
  import opened Bytes
  import opened Subject

  /** `max == -1` stands for "no limit"; `lazy` is the greediness after the UNGREEDY option. */
  datatype Quant = Once | Rep(min: nat, max: int, lazy: bool) {
    predicate Valid() {
      Rep? ==> min <= 65535 && -1 <= max <= 65535 && (max >= 0 ==> min <= max)
    }
  }

  /** A quantifier after a literal run applies to its last byte. `cap == 0` is `(?:...)`. */
  datatype Atom =
    | Lit(run: seq<byte>)
    | Single(t: Test)
    | Circ
    | Doll
    | Group(cap: nat, alts: Alts)

  datatype Piece = Piece(a: Atom, q: Quant)
  datatype Branch = Nil | Cons(hd: Piece, tl: Branch)
  datatype Alts = Last(b: Branch) | Alt(b: Branch, more: Alts)

  /** The length at which the compiler closes a literal run and starts another. */
  const MAXLIT := 250

  predicate ValidAtom(a: Atom) {
    match a
    case Lit(run) => 1 <= |run| <= MAXLIT
    case Single(t) => t.Valid() && !t.Char?
    case Circ => true
    case Doll => true
    case Group(cap, alts) => cap < 0x1_0000 && ValidAlts(alts)
  }

  predicate ValidBranch(b: Branch) {
    b.Cons? ==> ValidAtom(b.hd.a) && b.hd.q.Valid() && ValidBranch(b.tl)
  }

  predicate ValidAlts(alts: Alts) {
    ValidBranch(alts.b) && (alts.Alt? ==> ValidAlts(alts.more))
  }

  /** No quantifier follows `^` or `$`; the compiler rejects one ("nothing to repeat"). */
  predicate Repeatable(b: Branch)
    decreases b
  {
    b.Cons? ==>
      ((b.hd.a.Circ? || b.hd.a.Doll?) ==> b.hd.q.Once?) &&
      (b.hd.a.Group? ==> RepeatableAlts(b.hd.a.alts)) && Repeatable(b.tl)
  }

  predicate RepeatableAlts(alts: Alts)
    decreases alts
  {
    Repeatable(alts.b) && (alts.Alt? ==> RepeatableAlts(alts.more))
  }

  // ----- results of matching -----

  /** A position together with the spans captured so far. */
  datatype St = St(pos: nat, caps: map<nat, (nat, nat)>)

  function Close(cap: nat, start: nat, st: St): St {
    if cap == 0 then st else st.(caps := st.caps[cap := (start, st.pos)])
  }

  function CloseAll(cap: nat, start: nat, sts: seq<St>): (r: seq<St>)
    ensures |r| == |sts|
    ensures forall n :: 0 <= n < |r| ==> r[n] == Close(cap, start, sts[n])
  {
    seq(|sts|, n requires 0 <= n < |sts| => Close(cap, start, sts[n]))
  }

  function Pred(n: nat): nat {
    if n == 0 then 0 else n - 1
  }

  function Dec(max: int): int {
    if max <= 0 then max else max - 1
  }

  /** Greedy tries `more` before stopping, lazy after. */
  function Order<T>(lazy: bool, stop: seq<T>, more: seq<T>): seq<T> {
    if lazy then stop + more else more + stop
  }

  // ----- textbook ordered backtracking -----

  /** A repeated one-byte test, one byte at a time. */
  function TestEnds(E: Env, t: Test, min: nat, max: int, lazy: bool, st: St): seq<St>
    requires t.Valid()
    decreases if st.pos < |E.s| then |E.s| - st.pos else 0
  {
    if max == 0 then [st] else
    var more := if Hit(E, t, st.pos)
                then TestEnds(E, t, Pred(min), Dec(max), lazy, st.(pos := st.pos + 1)) else [];
    if min > 0 then more else Order(lazy, [st], more)
  }

  function RunEnds(E: Env, run: seq<byte>, st: St): seq<St> {
    if RunAt(E, run, st.pos) then [st.(pos := st.pos + |run|)] else []
  }

  function TestEndsAll(E: Env, t: Test, min: nat, max: int, lazy: bool, sts: seq<St>): seq<St>
    requires t.Valid()
  {
    if sts == [] then [] else
    TestEnds(E, t, min, max, lazy, sts[0]) + TestEndsAll(E, t, min, max, lazy, sts[1..])
  }

  function AtEnds(holds: bool, st: St): seq<St> {
    if holds then [st] else []
  }

  function BranchEnds(E: Env, b: Branch, st: St): seq<St>
    requires ValidBranch(b)
    decreases b, 0
  {
    match b
    case Nil => [st]
    case Cons(p, tl) => BranchEndsAll(E, tl, PieceEnds(E, p, st))
  }

  function BranchEndsAll(E: Env, b: Branch, sts: seq<St>): seq<St>
    requires ValidBranch(b)
    decreases b, 1, |sts|
  {
    if sts == [] then [] else BranchEnds(E, b, sts[0]) + BranchEndsAll(E, b, sts[1..])
  }

  function PieceEnds(E: Env, p: Piece, st: St): seq<St>
    requires ValidAtom(p.a) && p.q.Valid()
    decreases p
  {
    match p.a
    case Lit(run) =>
      if p.q.Once? then RunEnds(E, run, st) else
      TestEndsAll(E, Char(run[|run| - 1]), p.q.min, p.q.max, p.q.lazy, RunEnds(E, run[..|run| - 1], st))
    case Single(t) =>
      if p.q.Once? then TestEnds(E, t, 1, 1, false, st) else TestEnds(E, t, p.q.min, p.q.max, p.q.lazy, st)
    case Circ => AtEnds(st.pos <= |E.s| && CircAt(E, st.pos), st)
    case Doll => AtEnds(st.pos <= |E.s| && DollAt(E, st.pos), st)
    case Group(cap, alts) =>
      if p.q.Once? then GroupEnds(E, cap, alts, st)
      else GroupRep(E, cap, alts, p.q.min, p.q.max, p.q.lazy, st)
  }

  function AltsEnds(E: Env, alts: Alts, st: St): seq<St>
    requires ValidAlts(alts)
    decreases alts, 0
  {
    BranchEnds(E, alts.b, st) + if alts.Alt? then AltsEnds(E, alts.more, st) else []
  }

  /** One pass through a group: the first alternative's ways, then the next one's. */
  function GroupEnds(E: Env, cap: nat, alts: Alts, st: St): seq<St>
    requires ValidAlts(alts)
    decreases alts, 1
  {
    CloseAll(cap, st.pos, AltsEnds(E, alts, st))
  }

  /**
   * What follows the passes `rs` that began at `start`: stop, or go round again. A pass that
   * consumed nothing ends the repetition.
   */
  function GroupMore(E: Env, cap: nat, alts: Alts, lazy: bool, start: nat, rs: seq<St>): seq<St>
    requires ValidAlts(alts)
    decreases alts, 2, if start < |E.s| then |E.s| - start else 0, |rs|
  {
    if rs == [] then [] else
    var r := rs[0];
    var again := if start < r.pos <= |E.s|
                 then GroupMore(E, cap, alts, lazy, r.pos, GroupEnds(E, cap, alts, r)) else [];
    Order(lazy, [r], again) + GroupMore(E, cap, alts, lazy, start, rs[1..])
  }

  function GroupRep(E: Env, cap: nat, alts: Alts, min: nat, max: int, lazy: bool, st: St): seq<St>
    requires ValidAlts(alts)
    requires max >= -1
    decreases alts, 3, if max < 0 then min else max, 0
  {
    if max == 0 then [st] else
    var once := GroupEnds(E, cap, alts, st);
    var more := if max < 0 && min <= 1 then GroupMore(E, cap, alts, lazy, st.pos, once)
                else GroupRepAll(E, cap, alts, Pred(min), Dec(max), lazy, once);
    if min > 0 then more else Order(lazy, [st], more)
  }

  function GroupRepAll(E: Env, cap: nat, alts: Alts, min: nat, max: int, lazy: bool, sts: seq<St>): seq<St>
    requires ValidAlts(alts)
    requires max >= -1
    decreases alts, 3, if max < 0 then min else max, |sts|
  {
    if sts == [] then [] else
    GroupRep(E, cap, alts, min, max, lazy, sts[0]) + GroupRepAll(E, cap, alts, min, max, lazy, sts[1..])
  }

  // ----- the language of spans -----

  ghost predicate LangTest(E: Env, t: Test, n: nat, i: nat, j: nat)
    requires t.Valid()
  {
    j == i + n <= |E.s| && forall k :: i <= k < j ==> Accepts(E, t, E.s[k])
  }

  ghost predicate LangRun(E: Env, run: seq<byte>, i: nat, j: nat) {
    j == i + |run| && RunAt(E, run, i)
  }

  predicate Allowed(q: Quant, n: nat) {
    if q.Once? then n == 1 else q.min <= n && (q.max < 0 || n <= q.max)
  }

  ghost predicate LangBranch(E: Env, b: Branch, i: nat, j: nat)
    requires ValidBranch(b)
    decreases b
  {
    match b
    case Nil => i == j
    case Cons(p, tl) => exists m: nat :: LangPiece(E, p, i, m) && LangBranch(E, tl, m, j)
  }

  ghost predicate LangPiece(E: Env, p: Piece, i: nat, j: nat)
    requires ValidAtom(p.a) && p.q.Valid()
    decreases p
  {
    match p.a
    case Lit(run) =>
      if p.q.Once? then LangRun(E, run, i, j) else
      var m := i + |run| - 1;
      LangRun(E, run[..|run| - 1], i, m) &&
      exists n: nat :: LangTest(E, Char(run[|run| - 1]), n, m, j) && Allowed(p.q, n)
    case Single(t) => exists n: nat :: LangTest(E, t, n, i, j) && Allowed(p.q, n)
    case Circ => i == j <= |E.s| && CircAt(E, i)
    case Doll => i == j <= |E.s| && DollAt(E, i)
    case Group(_, alts) => exists n: nat :: LangPower(E, alts, n, i, j) && Allowed(p.q, n)
  }

  ghost predicate LangAlts(E: Env, alts: Alts, i: nat, j: nat)
    requires ValidAlts(alts)
    decreases alts, 0
  {
    LangBranch(E, alts.b, i, j) || (alts.Alt? && LangAlts(E, alts.more, i, j))
  }

  /** `n` consecutive passes. */
  ghost predicate LangPower(E: Env, alts: Alts, n: nat, i: nat, j: nat)
    requires ValidAlts(alts)
    decreases alts, 1, n
  {
    if n == 0 then i == j else
    exists m: nat :: LangAlts(E, alts, i, m) && LangPower(E, alts, n - 1, m, j)
  }
}
