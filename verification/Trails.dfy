/**
 * What the machine does besides finding its result: how often `match` calls itself, and which
 * capturing groups are closed, on the ways that fail as well.
 */
module Trails {
  import opened Wrappers
  import opened Subject
  import opened Regex
  import opened Program
  import opened Machine

  datatype Trail = Trail(calls: nat, closed: set<nat>)

  const NONE := Trail(0, {})

  /** `t` in a call of its own. */
  function Called(t: Trail): Trail {
    t.(calls := t.calls + 1)
  }

  function Closing(cap: nat, t: Trail): Trail {
    if cap > 0 then t.(closed := {cap} + t.closed) else t
  }

  /** The second way is gone only if the first one fails. */
  function Either(found: bool, first: Trail, second: Trail): Trail {
    if found then first else Trail(first.calls + second.calls, first.closed + second.closed)
  }

  ghost function Track(E: Env, k: Todo, st: St, b: Chain): Trail
    requires Fit(E, k, st, b)
    decreases |E.s| - st.pos, Weight(k, st.pos), 1, 0
  {
    match k.rest
    case Empty => TrackEnd(E, k, st, b)
    case Then(node, tl) =>
      var next := k.(rest := tl);
      assert ValidNode(node) && ValidCode(tl) && Valid(next);
      assert Weight(k, st.pos) == NodeSize(node) + Weight(next, st.pos);
      match node
      case Chars(run) =>
        if RunAt(E, run, st.pos) then Track(E, next, st.(pos := st.pos + |run|), b) else NONE
      case One(t) =>
        if Hit(E, t, st.pos) then Track(E, next, st.(pos := st.pos + 1), b) else NONE
      case Many(t, min, max, lazy, _) =>
        var r := Reach(E, t, st.pos, Limit(E, max, st.pos));
        if r < min then NONE
        else if min == max then Track(E, next, st.(pos := st.pos + min), b)
        else if lazy then TrackUp(E, next, st, b, min, r) else TrackDown(E, next, st, b, min, r)
      case AtStart => if CircAt(E, st.pos) then Track(E, next, st, b) else NONE
      case AtEnd => if DollAt(E, st.pos) then Track(E, next, st, b) else NONE
      case Number(_) => Track(E, next, st, b)
      case Bra(_, alts, _) => TrackChoice(E, alts, node, next, st, b)
      case Zero(g, lazy) =>
        CoversPush(b, next, st.pos);
        assert Valid(Push(g, next)) && Weight(Push(g, next), st.pos) == NodeSize(g) + Weight(next, st.pos);
        var b1 := Block(st.pos, b);
        if lazy then Either(Run(E, next, st, b1).Some?, Called(Track(E, next, st, b1)), Track(E, Push(g, next), st, b))
        else Either(Run(E, Push(g, next), st, b1).Some?, Called(Track(E, Push(g, next), st, b1)), Track(E, next, st, b))
  }

  ghost function TrackEnd(E: Env, k: Todo, st: St, b: Chain): Trail
    requires Fit(E, k, st, b) && k.rest.Empty?
    decreases |E.s| - st.pos, Weight(k, st.pos), 0, 0
  {
    match k
    case Top(_, veto) => NONE
    case In(_, _, g, start, up) =>
      var closed := Close(g.cap, start, st);
      assert b.Block? && Sorted(b.prev, b.at) && Covers(b.prev, up);
      assert Valid(up) && Sorted(b.prev, st.pos);
      CoversPush(b.prev, up, st.pos);
      assert Valid(Push(g, up)) && Weight(Push(g, up), st.pos) == NodeSize(g) + Weight(up, st.pos);
      if g.ket.Plain? || st.pos == b.at then Closing(g.cap, Track(E, up, closed, b.prev))
      else
        var b1 := Block(st.pos, b.prev);
        var left, round := Called(Track(E, up, closed, b.prev)), Called(Track(E, Push(g, up), closed, b1));
        Closing(g.cap, if g.ket.Min? then Either(Run(E, up, closed, b.prev).Some?, left, round)
                       else Either(Run(E, Push(g, up), closed, b1).Some?, round, left))
  }

  ghost function TrackChoice(E: Env, a: Choice, g: Node, k: Todo, st: St, b: Chain): Trail
    requires Fit(E, k, st, b) && ValidChoice(a) && g.Bra? && ValidNode(g)
    decreases |E.s| - st.pos, ChoiceSize(a) + 1 + Weight(k, st.pos), 2, 0
  {
    var e, b1 := Enter(a, g, st.pos, k), Block(st.pos, b);
    Either(a.Only? || Run(E, e, st, b1).Some?, Called(Track(E, e, st, b1)),
           if a.Only? then NONE else TrackChoice(E, a.more, g, k, st, b))
  }

  ghost function TrackDown(E: Env, k: Todo, st: St, b: Chain, lo: nat, hi: nat): Trail
    requires Fit(E, k, st, b) && lo <= hi && st.pos + hi <= |E.s|
    decreases |E.s| - st.pos, Weight(k, st.pos), 2, hi
  {
    var st1 := st.(pos := st.pos + hi);
    Either(hi == lo || Run(E, k, st1, b).Some?, Called(Track(E, k, st1, b)),
           if hi == lo then NONE else TrackDown(E, k, st, b, lo, hi - 1))
  }

  ghost function TrackUp(E: Env, k: Todo, st: St, b: Chain, lo: nat, hi: nat): Trail
    requires Fit(E, k, st, b) && lo <= hi && st.pos + hi <= |E.s|
    decreases |E.s| - st.pos, Weight(k, st.pos), 2, hi - lo
  {
    var st1 := st.(pos := st.pos + lo);
    Either(hi == lo || Run(E, k, st1, b).Some?, Called(Track(E, k, st1, b)),
           if hi == lo then NONE else TrackUp(E, k, st, b, lo + 1, hi))
  }

  // ----- single steps -----

  lemma TrackItem(E: Env, k: Todo, st: St, b: Chain)
    requires Fit(E, k, st, b) && k.rest.Then?
    requires k.rest.hd.Chars? || k.rest.hd.AtStart? || k.rest.hd.AtEnd? || k.rest.hd.Number? || k.rest.hd.One?
    ensures ValidNode(k.rest.hd)
    ensures !Fits(E, k.rest.hd, st.pos) ==> Track(E, k, st, b) == NONE
    ensures Fits(E, k.rest.hd, st.pos) ==>
              var st1 := st.(pos := st.pos + Width(k.rest.hd));
              Fit(E, Next(k), st1, b) && Track(E, k, st, b) == Track(E, Next(k), st1, b)
  {
    hide Run;
    var n := k.rest.hd;
    FitNext(E, k, st, b, 0);
    if Fits(E, n, st.pos) {
      FitNext(E, k, st, b, Width(n));
      assert st.(pos := st.pos + 0) == st;
    }
  }

  lemma TrackMany(E: Env, k: Todo, st: St, b: Chain)
    requires Fit(E, k, st, b) && k.rest.Then? && k.rest.hd.Many?
    ensures
      var n := k.rest.hd;
      && ValidNode(n) && Fit(E, Next(k), st, b)
      && var r := Reach(E, n.t, st.pos, Limit(E, n.max, st.pos));
         Track(E, k, st, b) ==
         if r < n.min then NONE
         else if n.min == n.max then Track(E, Next(k), st.(pos := st.pos + n.min), b)
         else if n.lazy then TrackUp(E, Next(k), st, b, n.min, r) else TrackDown(E, Next(k), st, b, n.min, r)
  {
    hide Run;
    FitNext(E, k, st, b, 0);
    assert st.(pos := st.pos + 0) == st;
  }

  lemma TrackUpStep(E: Env, k: Todo, st: St, b: Chain, lo: nat, hi: nat)
    requires Fit(E, k, st, b) && lo <= hi && st.pos + hi <= |E.s|
    ensures var st1 := st.(pos := st.pos + lo);
            TrackUp(E, k, st, b, lo, hi) == Either(hi == lo || Run(E, k, st1, b).Some?, Called(Track(E, k, st1, b)),
                                                   if hi == lo then NONE else TrackUp(E, k, st, b, lo + 1, hi))
  {
  }

  lemma TrackDownStep(E: Env, k: Todo, st: St, b: Chain, lo: nat, hi: nat)
    requires Fit(E, k, st, b) && lo <= hi && st.pos + hi <= |E.s|
    ensures var st1 := st.(pos := st.pos + hi);
            TrackDown(E, k, st, b, lo, hi) == Either(hi == lo || Run(E, k, st1, b).Some?, Called(Track(E, k, st1, b)),
                                                     if hi == lo then NONE else TrackDown(E, k, st, b, lo, hi - 1))
  {
  }

  lemma TrackBra(E: Env, k: Todo, st: St, b: Chain)
    requires Fit(E, k, st, b) && k.rest.Then? && k.rest.hd.Bra?
    ensures var g := k.rest.hd;
            && ValidNode(g) && ValidChoice(g.alts) && Fit(E, Next(k), st, b)
            && Track(E, k, st, b) == TrackChoice(E, g.alts, g, Next(k), st, b)
  {
    hide Run;
    FitNext(E, k, st, b, 0);
    assert st.(pos := st.pos + 0) == st;
  }

  lemma TrackChoiceStep(E: Env, a: Choice, g: Node, k: Todo, st: St, b: Chain)
    requires Fit(E, k, st, b) && ValidChoice(a) && g.Bra? && ValidNode(g)
    ensures var e, b1 := Enter(a, g, st.pos, k), Block(st.pos, b);
            && Fit(E, e, st, b1)
            && TrackChoice(E, a, g, k, st, b) == Either(a.Only? || Run(E, e, st, b1).Some?, Called(Track(E, e, st, b1)),
                                                        if a.Only? then NONE else TrackChoice(E, a.more, g, k, st, b))
  {
    hide Run;
  }

  lemma TrackZero(E: Env, k: Todo, st: St, b: Chain)
    requires Fit(E, k, st, b) && k.rest.Then? && k.rest.hd.Zero?
    ensures
      var g, lazy, next, b1 := k.rest.hd.g, k.rest.hd.lazy, Next(k), Block(st.pos, b);
      && g.Bra? && ValidNode(g) && Fit(E, next, st, b) && Fit(E, next, st, b1)
      && Fit(E, Push(g, next), st, b) && Fit(E, Push(g, next), st, b1)
      && Track(E, k, st, b) ==
         if lazy then Either(Run(E, next, st, b1).Some?, Called(Track(E, next, st, b1)), Track(E, Push(g, next), st, b))
         else Either(Run(E, Push(g, next), st, b1).Some?, Called(Track(E, Push(g, next), st, b1)), Track(E, next, st, b))
  {
    RunZero(E, k, st, b);
    hide Run;
  }

  lemma TrackKet(E: Env, k: Todo, st: St, b: Chain)
    requires Fit(E, k, st, b) && k.In? && k.rest.Empty?
    ensures
      var g, up := k.g, k.up;
      var closed := Close(g.cap, k.start, st);
      && b.Block? && g.Bra? && Fit(E, up, closed, b.prev)
      && (g.ket.Plain? || st.pos == b.at ==> Track(E, k, st, b) == Closing(g.cap, Track(E, up, closed, b.prev)))
      && (!g.ket.Plain? && st.pos != b.at ==>
            var again, b1 := Push(g, up), Block(st.pos, b.prev);
            && Fit(E, again, closed, b1)
            && var left, round := Called(Track(E, up, closed, b.prev)), Called(Track(E, again, closed, b1));
               Track(E, k, st, b) == Closing(g.cap, if g.ket.Min? then Either(Run(E, up, closed, b.prev).Some?, left, round)
                                                    else Either(Run(E, again, closed, b1).Some?, round, left)))
  {
    RunKet(E, k, st, b);
    hide Run;
  }

  lemma TrackLaterSkipped(E: Env, k: Todo, st: St, b: Chain)
    requires Fit(E, k, st, b) && k.In? && k.rest.Empty?
    ensures var k1 := k.(later := NoMore); Fit(E, k1, st, b) && Track(E, k1, st, b) == Track(E, k, st, b)
  {
    LaterSkipped(E, k, st, b);
    hide Run;
  }
}
