/**
 * A pattern that passes is_anchored or is_startline and matches at a position matches a byte
 * earlier too, lazy and possibly empty group repeats included: behind `.*` only the positions saved
 * on the chain differ, and a lower saved position lets `match` try no less. Nor does it close fewer
 * groups on the way.
 */
module Earlier {
  import opened Wrappers
  import opened Subject
  import opened Regex
  import opened Program
  import opened Lower
  import opened Machine
  import opened Trails
  import opened Anchor
  import opened Correct

  /** The same remains to be done; groups may have been entered elsewhere. */
  ghost predicate Alike(k: Todo, k2: Todo) {
    k.rest == k2.rest && k.In? == k2.In? && (k.In? ==> k.later == k2.later && k.g == k2.g && Alike(k.up, k2.up))
  }

  /** Each block of `b2` is that of `b` or already behind `pos`. */
  ghost predicate Lowers(b: Chain, b2: Chain, pos: nat) {
    b.Block? == b2.Block? && (b.Block? ==> (b2.at == b.at || b2.at < pos) && Lowers(b.prev, b2.prev, pos))
  }

  ghost function VetoOf(k: Todo): int {
    if k.In? then VetoOf(k.up) else k.veto
  }

  /** What there is to reach: a match, or the end of group `x` on some way. */
  ghost predicate Gains(matched: bool, t: Trail, x: Option<nat>) {
    matched || (x.Some? && x.value in t.closed)
  }

  ghost predicate Found(E: Env, k: Todo, st: St, b: Chain, x: Option<nat>) {
    Fit(E, k, st, b) && Gains(Run(E, k, st, b).Some?, Track(E, k, st, b), x)
  }

  lemma EitherGains(matched: bool, first: Trail, second: bool, t: Trail, x: Option<nat>)
    ensures Gains(matched || second, Either(matched, Called(first), t), x) ==> Gains(matched, first, x) || Gains(second, t, x)
    ensures Gains(matched, first, x) ==> Gains(matched || second, Either(matched, Called(first), t), x)
    ensures Gains(second, t, x) ==> Gains(matched || second, Either(matched, Called(first), t), x)
  {
  }

  /** State 2 stands where state 1 does, with a lower chain and nothing ruled out ahead. */
  ghost predicate Over(E: Env, k: Todo, st: St, b: Chain, k2: Todo, st2: St, b2: Chain) {
    Fit(E, k2, st2, b2) && Alike(k, k2) && st2.pos == st.pos && Lowers(b, b2, st.pos) && VetoOf(k2) < st.pos
  }

  lemma {:induction false} LowersOn(b: Chain, b2: Chain, pos: nat, pos1: nat)
    requires Lowers(b, b2, pos) && pos <= pos1
    ensures Lowers(b, b2, pos1)
  {
    if b.Block? { LowersOn(b.prev, b2.prev, pos, pos1); }
  }

  lemma OverNext(E: Env, k: Todo, st: St, b: Chain, k2: Todo, st2: St, b2: Chain, n: nat)
    requires Fit(E, k, st, b) && Over(E, k, st, b, k2, st2, b2) && k.rest.Then? && st.pos + n <= |E.s|
    ensures Over(E, Next(k), st.(pos := st.pos + n), b, Next(k2), st2.(pos := st.pos + n), b2)
  {
    FitNext(E, k2, st2, b2, n);
    LowersOn(b, b2, st.pos, st.pos + n);
  }

  lemma PushOver(g: Node, k: Todo, b: Chain, k2: Todo, b2: Chain, pos: nat)
    requires Alike(k, k2) && Lowers(b, b2, pos)
    ensures Alike(Push(g, k), Push(g, k2)) && Lowers(Block(pos, b), Block(pos, b2), pos) && VetoOf(Push(g, k2)) == VetoOf(k2)
  {
  }

  /** Under NOTEMPTY an attempt rules out its own position. */
  function VetoAt(notempty: bool, i: nat): int {
    if notempty then i else -1
  }

  /** What the call at position `i` comes to. */
  ghost function AttemptTrack(E: Env, alts: Alts, veto: int, i: nat): Trail
    requires ValidAlts(alts) && i <= |E.s|
  {
    BeginFit(E, alts, veto, i);
    Called(Track(E, Begin(alts, veto), St(i, map[]), Block(i, Null)))
  }

  // ----- what a span of repeats comes to -----

  ghost function SpanRun(E: Env, k: Todo, st: St, b: Chain, lazy: bool, lo: nat, hi: nat): Option<St>
    requires Fit(E, k, st, b) && lo <= hi && st.pos + hi <= |E.s|
  {
    if lazy then RunUp(E, k, st, b, lo, hi) else RunDown(E, k, st, b, lo, hi)
  }

  ghost function SpanTrack(E: Env, k: Todo, st: St, b: Chain, lazy: bool, lo: nat, hi: nat): Trail
    requires Fit(E, k, st, b) && lo <= hi && st.pos + hi <= |E.s|
  {
    if lazy then TrackUp(E, k, st, b, lo, hi) else TrackDown(E, k, st, b, lo, hi)
  }

  ghost predicate SpanGains(E: Env, k: Todo, st: St, b: Chain, lazy: bool, lo: nat, hi: nat, x: Option<nat>)
    requires Fit(E, k, st, b) && lo <= hi && st.pos + hi <= |E.s|
  {
    Gains(SpanRun(E, k, st, b, lazy, lo, hi).Some?, SpanTrack(E, k, st, b, lazy, lo, hi), x)
  }

  /** The first of the ways, and the others. */
  lemma SpanStep(E: Env, k: Todo, st: St, b: Chain, lazy: bool, lo: nat, hi: nat, x: Option<nat>)
    requires Fit(E, k, st, b) && lo <= hi && st.pos + hi <= |E.s|
    ensures var m := if lazy then lo else hi;
            SpanGains(E, k, st, b, lazy, lo, hi, x) <==>
              Found(E, k, st.(pos := st.pos + m), b, x) ||
              (lo < hi && SpanGains(E, k, st, b, lazy, if lazy then lo + 1 else lo, if lazy then hi else hi - 1, x))
  {
    hide Run, Track;
    var m := if lazy then lo else hi;
    SpanFit(E, k, st, b, m);
    if lazy {
      RunUpStep(E, k, st, b, lo, hi);
      TrackUpStep(E, k, st, b, lo, hi);
    } else {
      RunDownStep(E, k, st, b, lo, hi);
      TrackDownStep(E, k, st, b, lo, hi);
    }
  }

  lemma {:induction false} SpanFinds(E: Env, k: Todo, st: St, b: Chain, lazy: bool, lo: nat, hi: nat, x: Option<nat>) returns (n: nat)
    requires Fit(E, k, st, b) && lo <= hi && st.pos + hi <= |E.s| && SpanGains(E, k, st, b, lazy, lo, hi, x)
    ensures lo <= n <= hi && Found(E, k, st.(pos := st.pos + n), b, x)
    decreases hi - lo
  {
    hide Found, SpanGains;
    n := if lazy then lo else hi;
    SpanStep(E, k, st, b, lazy, lo, hi, x);
    if !Found(E, k, st.(pos := st.pos + n), b, x) {
      n := SpanFinds(E, k, st, b, lazy, if lazy then lo + 1 else lo, if lazy then hi else hi - 1, x);
    }
  }

  lemma {:induction false} SpanTries(E: Env, k: Todo, st: St, b: Chain, lazy: bool, lo: nat, hi: nat, n: nat, x: Option<nat>)
    requires Fit(E, k, st, b) && lo <= n <= hi && st.pos + hi <= |E.s| && Found(E, k, st.(pos := st.pos + n), b, x)
    ensures SpanGains(E, k, st, b, lazy, lo, hi, x)
    decreases hi - lo
  {
    hide Run, Track, SpanGains;
    var m := if lazy then lo else hi;
    SpanFit(E, k, st, b, m);
    SpanStep(E, k, st, b, lazy, lo, hi, x);
    if n != m { SpanTries(E, k, st, b, lazy, if lazy then lo + 1 else lo, if lazy then hi else hi - 1, n, x); }
  }

  /** A repeat is its span, whether its bounds make calls necessary or not. */
  lemma ManyGains(E: Env, k: Todo, st: St, b: Chain, x: Option<nat>)
    requires Fit(E, k, st, b) && k.rest.Then? && k.rest.hd.Many?
    ensures var n := k.rest.hd;
            && ValidNode(n) && Fit(E, Next(k), st, b)
            && var r := Reach(E, n.t, st.pos, Limit(E, n.max, st.pos));
               Found(E, k, st, b, x) <==> r >= n.min && SpanGains(E, Next(k), st, b, n.lazy, n.min, r, x)
  {
    hide Run, Track, Gains;
    RunMany(E, k, st, b);
    TrackMany(E, k, st, b);
    var n := k.rest.hd;
    var r := Reach(E, n.t, st.pos, Limit(E, n.max, st.pos));
    if r >= n.min && n.min == n.max {
      SpanStep(E, Next(k), st, b, n.lazy, n.min, r, x);
      SpanFit(E, Next(k), st, b, r);
      if n.lazy { RunUpStep(E, Next(k), st, b, r, r); } else { RunDownStep(E, Next(k), st, b, r, r); }
    }
    if r < n.min { NoGains(x); }
  }

  lemma NoGains(x: Option<nat>)
    ensures !Gains(false, NONE, x)
  {
  }

  lemma SpanFit(E: Env, k: Todo, st: St, b: Chain, n: nat)
    requires Fit(E, k, st, b) && st.pos + n <= |E.s|
    ensures Fit(E, k, st.(pos := st.pos + n), b)
  {
  }

  // ----- single steps -----

  lemma ItemGains(E: Env, k: Todo, st: St, b: Chain, x: Option<nat>)
    requires Fit(E, k, st, b) && k.rest.Then? && !k.rest.hd.Many? && !k.rest.hd.Bra? && !k.rest.hd.Zero?
    ensures var n := k.rest.hd;
            && ValidNode(n) && (Fits(E, n, st.pos) ==> st.pos + Width(n) <= |E.s|)
            && (Found(E, k, st, b, x) <==> Fits(E, n, st.pos) && Found(E, Next(k), st.(pos := st.pos + Width(n)), b, x))
  {
    hide Run, Track;
    RunItem(E, k, st, b);
    TrackItem(E, k, st, b);
  }

  ghost predicate ChoiceGains(E: Env, a: Choice, g: Node, k: Todo, st: St, b: Chain, x: Option<nat>)
    requires Fit(E, k, st, b) && ValidChoice(a) && g.Bra? && ValidNode(g)
  {
    Gains(RunChoice(E, a, g, k, st, b).Some?, TrackChoice(E, a, g, k, st, b), x)
  }

  lemma BraGains(E: Env, k: Todo, st: St, b: Chain, x: Option<nat>)
    requires Fit(E, k, st, b) && k.rest.Then? && k.rest.hd.Bra?
    ensures var g := k.rest.hd;
            && ValidNode(g) && ValidChoice(g.alts) && Fit(E, Next(k), st, b)
            && Weight(k, st.pos) == 2 + ChoiceSize(g.alts) + Weight(Next(k), st.pos)
            && (Found(E, k, st, b, x) <==> ChoiceGains(E, g.alts, g, Next(k), st, b, x))
  {
    hide Run, Track, RunChoice, TrackChoice;
    RunBra(E, k, st, b);
    TrackBra(E, k, st, b);
  }

  lemma ChoiceStepGains(E: Env, a: Choice, g: Node, k: Todo, st: St, b: Chain, x: Option<nat>)
    requires Fit(E, k, st, b) && ValidChoice(a) && g.Bra? && ValidNode(g)
    ensures var e, b1 := Enter(a, g, st.pos, k), Block(st.pos, b);
            && Fit(E, e, st, b1) && Weight(e, st.pos) <= ChoiceSize(a) + 1 + Weight(k, st.pos)
            && (a.Or? ==> ValidChoice(a.more) && ChoiceSize(a.more) < ChoiceSize(a))
            && (ChoiceGains(E, a, g, k, st, b, x) <==> Found(E, e, st, b1, x) || (a.Or? && ChoiceGains(E, a.more, g, k, st, b, x)))
  {
    hide Run, Track, RunChoice, TrackChoice, Weight, ChoiceSize;
    RunChoiceStep(E, a, g, k, st, b);
    TrackChoiceStep(E, a, g, k, st, b);
  }

  /** Taken or skipped, with the extra block on the one that is tried first. */
  lemma ZeroGains(E: Env, k: Todo, st: St, b: Chain, x: Option<nat>)
    requires Fit(E, k, st, b) && k.rest.Then? && k.rest.hd.Zero?
    ensures
      var g, lazy, next, b1 := k.rest.hd.g, k.rest.hd.lazy, Next(k), Block(st.pos, b);
      && Weight(next, st.pos) < Weight(k, st.pos) && Weight(Push(g, next), st.pos) < Weight(k, st.pos)
      && Fit(E, next, st, b) && Fit(E, next, st, b1) && Fit(E, Push(g, next), st, b) && Fit(E, Push(g, next), st, b1)
      && (Found(E, k, st, b, x) <==> Found(E, Push(g, next), st, if lazy then b else b1, x) || Found(E, next, st, if lazy then b1 else b, x))
  {
    hide Run, Track, Gains, Weight, Fit;
    RunZero(E, k, st, b);
    TrackZero(E, k, st, b);
    var g, lazy, next, b1 := k.rest.hd.g, k.rest.hd.lazy, Next(k), Block(st.pos, b);
    if lazy {
      EitherGains(Run(E, next, st, b1).Some?, Track(E, next, st, b1), Run(E, Push(g, next), st, b).Some?, Track(E, Push(g, next), st, b), x);
    } else {
      EitherGains(Run(E, Push(g, next), st, b1).Some?, Track(E, Push(g, next), st, b1), Run(E, next, st, b).Some?, Track(E, next, st, b), x);
    }
  }

  /** The group is closed; then it is left, or, unless the pass counts as empty, entered again. */
  lemma KetGains(E: Env, k: Todo, st: St, b: Chain, x: Option<nat>)
    requires Fit(E, k, st, b) && k.In? && k.rest.Empty?
    ensures
      var g, up := k.g, k.up;
      var closed := Close(g.cap, k.start, st);
      && b.Block? && g.Bra? && Fit(E, up, closed, b.prev) && Weight(up, st.pos) < Weight(k, st.pos)
      && var goesOn := !g.ket.Plain? && st.pos != b.at;
      && (goesOn ==> Fit(E, Push(g, up), closed, Block(st.pos, b.prev)) && Weight(Push(g, up), st.pos) < Weight(k, st.pos))
      && (Found(E, k, st, b, x) <==>
            || (g.cap > 0 && x == Some(g.cap))
            || Found(E, up, closed, b.prev, x)
            || (goesOn && Found(E, Push(g, up), closed, Block(st.pos, b.prev), x)))
  {
    hide Run, Track, Weight;
    RunKet(E, k, st, b);
    TrackKet(E, k, st, b);
    PushWeight(k.g, k.up, st.pos);
  }

  // ----- a lower chain -----

  /**
   * With lower saved positions the empty-pass test fires less often, and everything else is tried as
   * before: what can be reached above can be reached below.
   */
  lemma {:induction false} RunOver(E: Env, k: Todo, st: St, b: Chain, k2: Todo, st2: St, b2: Chain, x: Option<nat>)
    requires Found(E, k, st, b, x) && Over(E, k, st, b, k2, st2, b2)
    ensures Found(E, k2, st2, b2, x)
    decreases |E.s| - st.pos, Weight(k, st.pos), 1, 0
  {
    hide Run, Track, Weight, Gains;
    if k.rest.Empty? {
      EndOver(E, k, st, b, k2, st2, b2, x);
    } else {
      OverNext(E, k, st, b, k2, st2, b2, 0);
      FitNext(E, k, st, b, 0);
      assert st.(pos := st.pos + 0) == st && st2.(pos := st2.pos + 0) == st2;
      match k.rest.hd
      case Many(_, _, _, _, _) => ManyOver(E, k, st, b, k2, st2, b2, x);
      case Bra(_, alts, _) =>
        BraGains(E, k, st, b, x);
        BraGains(E, k2, st2, b2, x);
        ChoiceOver(E, alts, k.rest.hd, Next(k), st, b, Next(k2), st2, b2, x);
      case Zero(_, _) => ZeroOver(E, k, st, b, k2, st2, b2, x);
      case _ => ItemOver(E, k, st, b, k2, st2, b2, x);
    }
  }

  lemma {:induction false} ItemOver(E: Env, k: Todo, st: St, b: Chain, k2: Todo, st2: St, b2: Chain, x: Option<nat>)
    requires Found(E, k, st, b, x) && Over(E, k, st, b, k2, st2, b2)
    requires k.rest.Then? && !k.rest.hd.Many? && !k.rest.hd.Bra? && !k.rest.hd.Zero?
    ensures Found(E, k2, st2, b2, x)
    decreases |E.s| - st.pos, Weight(k, st.pos), 0, 0
  {
    hide Run, Track, Weight, Gains;
    ItemGains(E, k, st, b, x);
    ItemGains(E, k2, st2, b2, x);
    FitNext(E, k, st, b, 0);
    var n := Width(k.rest.hd);
    OverNext(E, k, st, b, k2, st2, b2, n);
    RunOver(E, Next(k), st.(pos := st.pos + n), b, Next(k2), st2.(pos := st2.pos + n), b2, x);
  }

  lemma {:induction false} ManyOver(E: Env, k: Todo, st: St, b: Chain, k2: Todo, st2: St, b2: Chain, x: Option<nat>)
    requires Found(E, k, st, b, x) && Over(E, k, st, b, k2, st2, b2) && k.rest.Then? && k.rest.hd.Many?
    ensures Found(E, k2, st2, b2, x)
    decreases |E.s| - st.pos, Weight(k, st.pos), 0, 0
  {
    hide Run, Track, Weight, Gains, SpanGains;
    FitNext(E, k, st, b, 0);
    ManyGains(E, k, st, b, x);
    ManyGains(E, k2, st2, b2, x);
    var node := k.rest.hd;
    var r := Reach(E, node.t, st.pos, Limit(E, node.max, st.pos));
    var n := SpanFinds(E, Next(k), st, b, node.lazy, node.min, r, x);
    OverNext(E, k, st, b, k2, st2, b2, n);
    RunOver(E, Next(k), st.(pos := st.pos + n), b, Next(k2), st2.(pos := st2.pos + n), b2, x);
    SpanTries(E, Next(k2), st2, b2, node.lazy, node.min, r, n, x);
  }

  lemma {:induction false} ZeroOver(E: Env, k: Todo, st: St, b: Chain, k2: Todo, st2: St, b2: Chain, x: Option<nat>)
    requires Found(E, k, st, b, x) && Over(E, k, st, b, k2, st2, b2) && k.rest.Then? && k.rest.hd.Zero?
    ensures Found(E, k2, st2, b2, x)
    decreases |E.s| - st.pos, Weight(k, st.pos), 0, 0
  {
    hide Run, Track, Weight, Gains;
    ZeroGains(E, k, st, b, x);
    ZeroGains(E, k2, st2, b2, x);
    var g, lazy, next, next2 := k.rest.hd.g, k.rest.hd.lazy, Next(k), Next(k2);
    var c, c2 := Block(st.pos, b), Block(st.pos, b2);
    var bt, bt2, bs, bs2 := if lazy then b else c, if lazy then b2 else c2, if lazy then c else b, if lazy then c2 else b2;
    if Found(E, Push(g, next), st, bt, x) {
      RunOver(E, Push(g, next), st, bt, Push(g, next2), st2, bt2, x);
    } else {
      RunOver(E, next, st, bs, next2, st2, bs2, x);
    }
  }

  lemma {:induction false} EndOver(E: Env, k: Todo, st: St, b: Chain, k2: Todo, st2: St, b2: Chain, x: Option<nat>)
    requires Found(E, k, st, b, x) && Over(E, k, st, b, k2, st2, b2) && k.rest.Empty?
    ensures Found(E, k2, st2, b2, x)
    decreases |E.s| - st.pos, Weight(k, st.pos), 0, 0
  {
    if k.In? {
      hide Run, Track, Weight, Gains;
      KetGains(E, k, st, b, x);
      KetGains(E, k2, st2, b2, x);
      var g, up, up2 := k.g, k.up, k2.up;
      var closed, closed2 := Close(g.cap, k.start, st), Close(g.cap, k2.start, st2);
      if Found(E, up, closed, b.prev, x) {
        RunOver(E, up, closed, b.prev, up2, closed2, b2.prev, x);
      } else if !(g.cap > 0 && x == Some(g.cap)) {
        var c, c2 := Block(st.pos, b.prev), Block(st.pos, b2.prev);
        assert st.pos != b.at && st2.pos != b2.at;
        assert Alike(up, up2) && Lowers(b.prev, b2.prev, st.pos);
        PushOver(g, up, b.prev, up2, b2.prev, st.pos);
        RunOver(E, Push(g, up), closed, c, Push(g, up2), closed2, c2, x);
      }
    } else {
      assert Run(E, k, st, b) == RunEnd(E, k, st, b) && Run(E, k2, st2, b2) == RunEnd(E, k2, st2, b2);
      assert Track(E, k, st, b) == TrackEnd(E, k, st, b);
    }
  }

  lemma {:induction false} ChoiceOver(E: Env, a: Choice, g: Node, k: Todo, st: St, b: Chain, k2: Todo, st2: St, b2: Chain, x: Option<nat>)
    requires Fit(E, k, st, b) && ValidChoice(a) && g.Bra? && ValidNode(g) && ChoiceGains(E, a, g, k, st, b, x)
    requires Over(E, k, st, b, k2, st2, b2)
    ensures ChoiceGains(E, a, g, k2, st2, b2, x)
    decreases |E.s| - st.pos, ChoiceSize(a) + 1 + Weight(k, st.pos), 2, 0
  {
    hide Run, Track, ChoiceGains, Gains, Weight, ChoiceSize;
    ChoiceStepGains(E, a, g, k, st, b, x);
    ChoiceStepGains(E, a, g, k2, st2, b2, x);
    var e, e2 := Enter(a, g, st.pos, k), Enter(a, g, st2.pos, k2);
    if Found(E, e, st, Block(st.pos, b), x) {
      RunOver(E, e, st, Block(st.pos, b), e2, st2, Block(st.pos, b2), x);
    } else {
      ChoiceOver(E, a.more, g, k, st, b, k2, st2, b2, x);
    }
  }

  // ----- a byte earlier -----

  /** State 2 stands a byte before state 1. */
  ghost predicate Behind(E: Env, k: Todo, i: nat, b: Chain, k2: Todo, st2: St, b2: Chain) {
    i > 0 && st2.pos == i - 1 && Fit(E, k2, st2, b2) && Alike(k, k2) && Lowers(b, b2, i) && VetoOf(k2) < i
  }

  lemma {:induction false} CodeBack(E: Env, anchored: bool, k: Todo, st: St, b: Chain, k2: Todo, st2: St, b2: Chain, x: Option<nat>)
    requires Backs(E, anchored, st.pos) && BeginsCode(E.opt, anchored, k.rest)
    requires Found(E, k, st, b, x) && Behind(E, k, st.pos, b, k2, st2, b2)
    ensures Found(E, k2, st2, b2, x)
    decreases k.rest
  {
    hide Run, Track, Weight, Gains;
    FitNext(E, k, st, b, 0);
    FitNext(E, k2, st2, b2, 0);
    assert st.(pos := st.pos + 0) == st && st2.(pos := st2.pos + 0) == st2;
    match k.rest.hd
    case Number(_) =>
      ItemGains(E, k, st, b, x);
      ItemGains(E, k2, st2, b2, x);
      CodeBack(E, anchored, Next(k), st, b, Next(k2), st2, b2, x);
    case Bra(_, alts, _) =>
      BraGains(E, k, st, b, x);
      BraGains(E, k2, st2, b2, x);
      ChoiceBack(E, anchored, alts, k.rest.hd, Next(k), st, b, Next(k2), st2, b2, x);
    case Many(_, _, _, _, _) => DotsBack(E, anchored, k, st, b, k2, st2, b2, x);
    case _ => ItemGains(E, k, st, b, x);
  }

  /** `.*` takes the byte before as well. */
  lemma {:induction false} DotsBack(E: Env, anchored: bool, k: Todo, st: St, b: Chain, k2: Todo, st2: St, b2: Chain, x: Option<nat>)
    requires Backs(E, anchored, st.pos) && k.rest.Then? && k.rest.hd.Many? && BeginsCode(E.opt, anchored, k.rest)
    requires Found(E, k, st, b, x) && Behind(E, k, st.pos, b, k2, st2, b2)
    ensures Found(E, k2, st2, b2, x)
  {
    hide Run, Track, Gains, SpanGains;
    ManyGains(E, k, st, b, x);
    ManyGains(E, k2, st2, b2, x);
    var node := k.rest.hd;
    var r := Reach(E, node.t, st.pos, Limit(E, -1, st.pos));
    var r2 := Reach(E, node.t, st2.pos, Limit(E, -1, st2.pos));
    assert Hit(E, node.t, st2.pos) && r2 == 1 + r;
    var n := SpanFinds(E, Next(k), st, b, node.lazy, 0, r, x);
    var on, on2 := st.(pos := st.pos + n), st2.(pos := st.pos + n);
    FitNext(E, k2, st2, b2, n + 1);
    LowersOn(b, b2, st.pos, on.pos);
    RunOver(E, Next(k), on, b, Next(k2), on2, b2, x);
    SpanTries(E, Next(k2), st2, b2, node.lazy, 0, r2, n + 1, x);
  }

  lemma {:induction false} ChoiceBack(E: Env, anchored: bool, a: Choice, g: Node, k: Todo, st: St, b: Chain, k2: Todo, st2: St, b2: Chain, x: Option<nat>)
    requires Backs(E, anchored, st.pos) && BeginsChoice(E.opt, anchored, a)
    requires Fit(E, k, st, b) && ValidChoice(a) && g.Bra? && ValidNode(g) && ChoiceGains(E, a, g, k, st, b, x)
    requires Behind(E, k, st.pos, b, k2, st2, b2)
    ensures ChoiceGains(E, a, g, k2, st2, b2, x)
    decreases a
  {
    hide Run, Track, ChoiceGains, Gains, Weight, ChoiceSize;
    ChoiceStepGains(E, a, g, k, st, b, x);
    ChoiceStepGains(E, a, g, k2, st2, b2, x);
    var e, e2 := Enter(a, g, st.pos, k), Enter(a, g, st2.pos, k2);
    if Found(E, e, st, Block(st.pos, b), x) {
      CodeBack(E, anchored, e, st, Block(st.pos, b), e2, st2, Block(st2.pos, b2), x);
    } else {
      ChoiceBack(E, anchored, a.more, g, k, st, b, k2, st2, b2, x);
    }
  }

  /** One step of the way back to the first attempt, for a match or for the end of group `x`. */
  lemma BeginBack(E: Env, alts: Alts, anchored: bool, notempty: bool, i: nat, x: Option<nat>)
    requires ValidAlts(alts) && RepeatableAlts(alts) && BeginsAlts(E.opt, anchored, alts) && Backs(E, anchored, i)
    requires Gains(Attempt(E, alts, VetoAt(notempty, i), i).Some?, AttemptTrack(E, alts, VetoAt(notempty, i), i), x)
    ensures Gains(Attempt(E, alts, VetoAt(notempty, i - 1), i - 1).Some?, AttemptTrack(E, alts, VetoAt(notempty, i - 1), i - 1), x)
  {
    hide Run, Track;
    var veto, veto2 := VetoAt(notempty, i), VetoAt(notempty, i - 1);
    PatternValid(alts);
    BeginFit(E, alts, veto, i);
    BeginFit(E, alts, veto2, i - 1);
    BeginsAltsKept(E.opt, anchored, alts);
    assert BeginsCode(E.opt, anchored, Then(LowerPattern(alts), Empty));
    var b, b2 := Block(i, Null), Block(i - 1, Null);
    assert Lowers(Null, Null, i) && Lowers(b, b2, i);
    CodeBack(E, anchored, Begin(alts, veto), St(i, map[]), b, Begin(alts, veto2), St(i - 1, map[]), b2, x);
  }

  /**
   * Over any byte if the pattern is anchored, over anything but a newline if every alternative
   * starts a line, an attempt that succeeds means that one a byte earlier does. Under NOTEMPTY each
   * attempt rules out its own position.
   */
  lemma AttemptBack(E: Env, alts: Alts, anchored: bool, notempty: bool, i: nat)
    requires ValidAlts(alts) && RepeatableAlts(alts) && BeginsAlts(E.opt, anchored, alts) && Backs(E, anchored, i)
    requires Attempt(E, alts, VetoAt(notempty, i), i).Some?
    ensures Attempt(E, alts, VetoAt(notempty, i - 1), i - 1).Some?
  {
    hide Attempt;
    BeginBack(E, alts, anchored, notempty, i, None);
  }

  /** ... and one that fails has closed no group which the one a byte earlier, failing too, did not close. */
  lemma ClosedBack(E: Env, alts: Alts, anchored: bool, notempty: bool, i: nat)
    requires ValidAlts(alts) && RepeatableAlts(alts) && BeginsAlts(E.opt, anchored, alts) && Backs(E, anchored, i)
    requires Attempt(E, alts, VetoAt(notempty, i - 1), i - 1) == None
    ensures AttemptTrack(E, alts, VetoAt(notempty, i), i).closed <= AttemptTrack(E, alts, VetoAt(notempty, i - 1), i - 1).closed
  {
    hide Attempt, AttemptTrack;
    forall x | x in AttemptTrack(E, alts, VetoAt(notempty, i), i).closed
      ensures x in AttemptTrack(E, alts, VetoAt(notempty, i - 1), i - 1).closed
    {
      BeginBack(E, alts, anchored, notempty, i, Some(x));
    }
  }
}
