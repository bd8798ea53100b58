/**
 * The backtracking machine that `match` implements, on program trees: what is left to do is a
 * stack of open groups, and the chain of saved subject positions (`eptrb`) is kept exactly as
 * the code keeps it, with the extra blocks that calls at a bracket opcode leave on it.
 */
module Machine {
  import opened Wrappers
  import opened Subject
  import opened Regex
  import opened Program

  /** `eptrblock`: saved subject positions, innermost first. */
  datatype Chain = Null | Block(at: nat, prev: Chain)

  /**
   * What remains. `Top`: the end of the pattern, which rejects a match ending at `veto` (the
   * start of the match under NOTEMPTY; -1 otherwise). `In`: the rest of a branch of `g`, entered
   * at `start`, with the alternatives `later` textually after it, then `up` after the group.
   */
  datatype Todo =
    | Top(rest: Code, veto: int)
    | In(rest: Code, later: Later, g: Node, start: nat, up: Todo)

  datatype Later = NoMore | More(alts: Choice)

  function LaterOf(a: Choice): Later {
    if a.Or? then More(a.more) else NoMore
  }

  ghost predicate Valid(k: Todo) {
    ValidCode(k.rest) &&
    (k.In? ==> k.g.Bra? && ValidNode(k.g) && (k.later.More? ==> ValidChoice(k.later.alts)) && Valid(k.up))
  }

  /** `g` and then `k`. */
  function Push(g: Node, k: Todo): Todo {
    k.(rest := Then(g, k.rest))
  }

  /** The first alternative of `a`, a suffix of the alternatives of `g`, entered at `start`. */
  function Enter(a: Choice, g: Node, start: nat, k: Todo): Todo {
    In(a.c, LaterOf(a), g, start, k)
  }

  // ----- the chain of saved positions -----

  /** Positions never increase down the chain, and none is after `pos`. */
  ghost predicate Sorted(b: Chain, pos: nat) {
    b.Block? ==> b.at <= pos && Sorted(b.prev, b.at)
  }

  /** Every open group has a block of its own depth, not before the start of its current pass. */
  ghost predicate Covers(b: Chain, k: Todo) {
    k.In? ==> b.Block? && k.start <= b.at && Covers(b.prev, k.up)
  }

  ghost predicate Fit(E: Env, k: Todo, st: St, b: Chain) {
    Valid(k) && st.pos <= |E.s| && Sorted(b, st.pos) && Covers(b, k)
  }

  /** An extra block shifts every group to a block that is no earlier than its own. */
  lemma {:induction false} CoversPush(b: Chain, k: Todo, pos: nat)
    requires Sorted(b, pos) && Covers(b, k)
    ensures Covers(Block(pos, b), k)
  {
    if k.In? {
      CoversPush(b.prev, k.up, b.at);
    }
  }

  // ----- the measure -----

  ghost function CodeSize(c: Code): nat {
    if c.Then? then NodeSize(c.hd) + CodeSize(c.tl) else 0
  }

  ghost function NodeSize(n: Node): (w: nat)
    ensures w > 0
  {
    match n
    case Bra(_, alts, _) => 2 + ChoiceSize(alts)
    case Zero(g, _) => 1 + NodeSize(g)
    case _ => 1
  }

  ghost function ChoiceSize(a: Choice): nat {
    CodeSize(a.c) + if a.Or? then 1 + ChoiceSize(a.more) else 0
  }

  /** A group whose pass has consumed something may go round once more without consuming. */
  ghost function Weight(k: Todo, pos: nat): nat {
    CodeSize(k.rest) +
    if k.In? then 1 + (if k.start < pos then NodeSize(k.g) else 0) + Weight(k.up, pos) else 0
  }

  // ----- running -----

  /** How far a greedy repeat of `t` reaches from `i`, at most `n` bytes. */
  function Reach(E: Env, t: Test, i: nat, n: nat): (r: nat)
    requires t.Valid()
    ensures r <= n && i + r <= if i <= |E.s| then |E.s| else i
    ensures forall k :: i <= k < i + r ==> Hit(E, t, k)
    ensures r < n ==> !Hit(E, t, i + r)
    decreases n
  {
    if n > 0 && Hit(E, t, i) then 1 + Reach(E, t, i + 1, n - 1) else 0
  }

  /** The most bytes a repeat may take at `i`; `-1` is no limit. */
  function Limit(E: Env, max: int, i: nat): nat
    requires i <= |E.s|
  {
    if max < 0 || max > |E.s| - i then |E.s| - i else max
  }

  function Run(E: Env, k: Todo, st: St, b: Chain): (r: Option<St>)
    requires Fit(E, k, st, b)
    decreases |E.s| - st.pos, Weight(k, st.pos), 1, 0
  {
    match k.rest
    case Empty => RunEnd(E, k, st, b)
    case Then(node, tl) =>
      var next := k.(rest := tl);
      assert ValidNode(node) && ValidCode(tl) && Valid(next);
      assert Weight(k, st.pos) == NodeSize(node) + Weight(next, st.pos);
      match node
      case Chars(run) =>
        if RunAt(E, run, st.pos) then Run(E, next, st.(pos := st.pos + |run|), b) else None
      case One(t) =>
        if Hit(E, t, st.pos) then Run(E, next, st.(pos := st.pos + 1), b) else None
      case Many(t, min, max, lazy, _) =>
        var r := Reach(E, t, st.pos, Limit(E, max, st.pos));
        if r < min then None
        else if lazy then RunUp(E, next, st, b, min, r) else RunDown(E, next, st, b, min, r)
      case AtStart => if CircAt(E, st.pos) then Run(E, next, st, b) else None
      case AtEnd => if DollAt(E, st.pos) then Run(E, next, st, b) else None
      case Number(_) => Run(E, next, st, b)
      case Bra(_, alts, _) => RunChoice(E, alts, node, next, st, b)
      case Zero(g, lazy) =>
        CoversPush(b, next, st.pos);
        assert Valid(Push(g, next)) && Weight(Push(g, next), st.pos) == NodeSize(g) + Weight(next, st.pos);
        if lazy then
          var skipped := Run(E, next, st, Block(st.pos, b));
          if skipped.Some? then skipped else Run(E, Push(g, next), st, b)
        else
          var taken := Run(E, Push(g, next), st, Block(st.pos, b));
          if taken.Some? then taken else Run(E, next, st, b)
  }

  /** At the end of the pattern, or at the ket of the innermost open group. */
  function RunEnd(E: Env, k: Todo, st: St, b: Chain): (r: Option<St>)
    requires Fit(E, k, st, b) && k.rest.Empty?
    decreases |E.s| - st.pos, Weight(k, st.pos), 0, 0
  {
    match k
    case Top(_, veto) => if st.pos == veto then None else Some(st)
    case In(_, _, g, start, up) =>
      var closed := Close(g.cap, start, st);
      assert b.Block? && Sorted(b.prev, b.at) && Covers(b.prev, up);
      assert Valid(up) && Sorted(b.prev, st.pos);
      CoversPush(b.prev, up, st.pos);
      assert Valid(Push(g, up)) && Weight(Push(g, up), st.pos) == NodeSize(g) + Weight(up, st.pos);
      if g.ket.Plain? || st.pos == b.at then Run(E, up, closed, b.prev)
      else if g.ket.Min? then
        var left := Run(E, up, closed, b.prev);
        if left.Some? then left else Run(E, Push(g, up), closed, Block(st.pos, b.prev))
      else
        var again := Run(E, Push(g, up), closed, Block(st.pos, b.prev));
        if again.Some? then again else Run(E, up, closed, b.prev)
  }

  function RunChoice(E: Env, a: Choice, g: Node, k: Todo, st: St, b: Chain): (r: Option<St>)
    requires Fit(E, k, st, b) && ValidChoice(a) && g.Bra? && ValidNode(g)
    decreases |E.s| - st.pos, ChoiceSize(a) + 1 + Weight(k, st.pos), 2, 0
  {
    var first := Run(E, Enter(a, g, st.pos, k), st, Block(st.pos, b));
    if first.Some? || a.Only? then first else RunChoice(E, a.more, g, k, st, b)
  }

  /** `hi`, `hi - 1`, ..., `lo` bytes on from the current position. */
  function RunDown(E: Env, k: Todo, st: St, b: Chain, lo: nat, hi: nat): (r: Option<St>)
    requires Fit(E, k, st, b) && lo <= hi && st.pos + hi <= |E.s|
    decreases |E.s| - st.pos, Weight(k, st.pos), 2, hi
  {
    var here := Run(E, k, st.(pos := st.pos + hi), b);
    if here.Some? || hi == lo then here else RunDown(E, k, st, b, lo, hi - 1)
  }

  /** `lo`, `lo + 1`, ..., `hi` bytes on from the current position. */
  function RunUp(E: Env, k: Todo, st: St, b: Chain, lo: nat, hi: nat): (r: Option<St>)
    requires Fit(E, k, st, b) && lo <= hi && st.pos + hi <= |E.s|
    decreases |E.s| - st.pos, Weight(k, st.pos), 2, hi - lo
  {
    var here := Run(E, k, st.(pos := st.pos + lo), b);
    if here.Some? || hi == lo then here else RunUp(E, k, st, b, lo + 1, hi)
  }

  // ----- single steps -----

  ghost function Next(k: Todo): Todo
    requires k.rest.Then?
  {
    k.(rest := k.rest.tl)
  }

  lemma FitNext(E: Env, k: Todo, st: St, b: Chain, n: nat)
    requires Fit(E, k, st, b) && k.rest.Then? && st.pos + n <= |E.s|
    ensures ValidNode(k.rest.hd) && Fit(E, Next(k), st.(pos := st.pos + n), b)
    ensures Weight(k, st.pos) == NodeSize(k.rest.hd) + Weight(Next(k), st.pos)
  {
    assert ValidCode(k.rest.tl);
  }

  /** A single item matches at `pos`. */
  predicate Fits(E: Env, n: Node, pos: nat)
    requires ValidNode(n) && pos <= |E.s|
  {
    match n
    case Chars(run) => RunAt(E, run, pos)
    case One(t) => Hit(E, t, pos)
    case AtStart => CircAt(E, pos)
    case AtEnd => DollAt(E, pos)
    case _ => true
  }

  /** How many bytes a single item takes. */
  function Width(n: Node): nat {
    match n
    case Chars(run) => |run|
    case One(_) => 1
    case _ => 0
  }

  lemma RunItem(E: Env, k: Todo, st: St, b: Chain)
    requires Fit(E, k, st, b) && k.rest.Then?
    requires k.rest.hd.Chars? || k.rest.hd.AtStart? || k.rest.hd.AtEnd? || k.rest.hd.Number? || k.rest.hd.One?
    ensures ValidNode(k.rest.hd)
    ensures !Fits(E, k.rest.hd, st.pos) ==> Run(E, k, st, b) == None
    ensures Fits(E, k.rest.hd, st.pos) ==>
              var st1 := st.(pos := st.pos + Width(k.rest.hd));
              Fit(E, Next(k), st1, b) && Run(E, k, st, b) == Run(E, Next(k), st1, b)
  {
    var n := k.rest.hd;
    FitNext(E, k, st, b, 0);
    if Fits(E, n, st.pos) {
      FitNext(E, k, st, b, Width(n));
      assert st.(pos := st.pos + 0) == st;
    }
  }

  lemma RunMany(E: Env, k: Todo, st: St, b: Chain)
    requires Fit(E, k, st, b) && k.rest.Then? && k.rest.hd.Many?
    ensures
      var n := k.rest.hd;
      && ValidNode(n) && Fit(E, Next(k), st, b)
      && Weight(Next(k), st.pos) < Weight(k, st.pos)
      && var r := Reach(E, n.t, st.pos, Limit(E, n.max, st.pos));
         Run(E, k, st, b) ==
         if r < n.min then None
         else if n.lazy then RunUp(E, Next(k), st, b, n.min, r) else RunDown(E, Next(k), st, b, n.min, r)
  {
    FitNext(E, k, st, b, 0);
    assert st.(pos := st.pos + 0) == st;
  }

  lemma RunUpStep(E: Env, k: Todo, st: St, b: Chain, lo: nat, hi: nat)
    requires Fit(E, k, st, b) && lo <= hi && st.pos + hi <= |E.s|
    ensures var here := Run(E, k, st.(pos := st.pos + lo), b);
            RunUp(E, k, st, b, lo, hi) == if here.Some? || hi == lo then here else RunUp(E, k, st, b, lo + 1, hi)
  {
  }

  lemma RunDownStep(E: Env, k: Todo, st: St, b: Chain, lo: nat, hi: nat)
    requires Fit(E, k, st, b) && lo <= hi && st.pos + hi <= |E.s|
    ensures var here := Run(E, k, st.(pos := st.pos + hi), b);
            RunDown(E, k, st, b, lo, hi) == if here.Some? || hi == lo then here else RunDown(E, k, st, b, lo, hi - 1)
  {
  }

  lemma RunBra(E: Env, k: Todo, st: St, b: Chain)
    requires Fit(E, k, st, b) && k.rest.Then? && k.rest.hd.Bra?
    ensures var g := k.rest.hd;
            && ValidNode(g) && ValidChoice(g.alts) && Fit(E, Next(k), st, b)
            && Weight(k, st.pos) == 2 + ChoiceSize(g.alts) + Weight(Next(k), st.pos)
            && Run(E, k, st, b) == RunChoice(E, g.alts, g, Next(k), st, b)
  {
    FitNext(E, k, st, b, 0);
    assert st.(pos := st.pos + 0) == st;
  }

  lemma RunChoiceStep(E: Env, a: Choice, g: Node, k: Todo, st: St, b: Chain)
    requires Fit(E, k, st, b) && ValidChoice(a) && g.Bra? && ValidNode(g)
    ensures var e, b1 := Enter(a, g, st.pos, k), Block(st.pos, b);
            && Fit(E, e, st, b1)
            && Weight(e, st.pos) <= ChoiceSize(a) + 1 + Weight(k, st.pos)
            && var first := Run(E, e, st, b1);
               RunChoice(E, a, g, k, st, b) == if first.Some? || a.Only? then first else RunChoice(E, a.more, g, k, st, b)
    ensures a.Or? ==> ValidChoice(a.more) && ChoiceSize(a.more) < ChoiceSize(a)
  {
  }

  lemma RunZero(E: Env, k: Todo, st: St, b: Chain)
    requires Fit(E, k, st, b) && k.rest.Then? && k.rest.hd.Zero?
    ensures
      var g, lazy, next, b1 := k.rest.hd.g, k.rest.hd.lazy, Next(k), Block(st.pos, b);
      && g.Bra? && ValidNode(g) && Fit(E, next, st, b) && Fit(E, next, st, b1)
      && Fit(E, Push(g, next), st, b) && Fit(E, Push(g, next), st, b1)
      && Weight(next, st.pos) < Weight(k, st.pos) && Weight(Push(g, next), st.pos) < Weight(k, st.pos)
      && (lazy ==> var skipped := Run(E, next, st, b1);
                   Run(E, k, st, b) == if skipped.Some? then skipped else Run(E, Push(g, next), st, b))
      && (!lazy ==> var taken := Run(E, Push(g, next), st, b1);
                    Run(E, k, st, b) == if taken.Some? then taken else Run(E, next, st, b))
  {
    FitNext(E, k, st, b, 0);
    assert st.(pos := st.pos + 0) == st;
    CoversPush(b, Next(k), st.pos);
    assert Valid(Push(k.rest.hd.g, Next(k)));
  }

  lemma RunKet(E: Env, k: Todo, st: St, b: Chain)
    requires Fit(E, k, st, b) && k.In? && k.rest.Empty?
    ensures
      var g, up := k.g, k.up;
      var closed := Close(g.cap, k.start, st);
      && b.Block? && g.Bra? && ValidNode(g) && Fit(E, up, closed, b.prev)
      && Weight(up, st.pos) < Weight(k, st.pos)
      && (g.ket.Plain? || st.pos == b.at ==> Run(E, k, st, b) == Run(E, up, closed, b.prev))
      && (!g.ket.Plain? && st.pos != b.at ==>
            var again, b1 := Push(g, up), Block(st.pos, b.prev);
            && Fit(E, again, closed, b1) && k.start < st.pos
            && NodeSize(g) + Weight(up, st.pos) < Weight(k, st.pos)
            && var left, round := Run(E, up, closed, b.prev), Run(E, again, closed, b1);
               Run(E, k, st, b) == if g.ket.Min? then (if left.Some? then left else round)
                                   else (if round.Some? then round else left))
  {
    assert b.Block? && Sorted(b.prev, b.at) && Covers(b.prev, k.up);
    assert Valid(k.up) && Sorted(b.prev, st.pos);
    CoversPush(b.prev, k.up, st.pos);
    assert Valid(Push(k.g, k.up)) && Weight(Push(k.g, k.up), st.pos) == NodeSize(k.g) + Weight(k.up, st.pos);
  }

  /** Alternatives already passed over do not matter at the end of a branch. */
  lemma LaterSkipped(E: Env, k: Todo, st: St, b: Chain)
    requires Fit(E, k, st, b) && k.In? && k.rest.Empty?
    ensures var k1 := k.(later := NoMore);
            Fit(E, k1, st, b) && Run(E, k1, st, b) == Run(E, k, st, b) && Weight(k1, st.pos) == Weight(k, st.pos)
  {
  }

  lemma PushWeight(g: Node, k: Todo, pos: nat)
    ensures Weight(Push(g, k), pos) == NodeSize(g) + Weight(k, pos)
  {
  }
}
