/** Code that the byte at a position stops: nothing is consumed, and no group comes to its end. */
module Stuck {
  import opened Wrappers
  import opened Subject
  import opened Regex
  import opened Program
  import opened Lower
  import opened Machine
  import opened Trails
  import opened Correct
  import opened Earlier

  predicate StuckCode(E: Env, c: Code, pos: nat)
    requires ValidCode(c)
    decreases c
  {
    c.Then? &&
    assert ValidNode(c.hd) && ValidCode(c.tl);
    match c.hd
    case Chars(run) => !RunAt(E, run, pos)
    case One(t) => !Hit(E, t, pos)
    case Many(t, min, _, _, _) => !Hit(E, t, pos) && (min > 0 || StuckCode(E, c.tl, pos))
    case Bra(_, alts, _) => StuckChoice(E, alts, pos)
    case Zero(g, _) => assert ValidNode(g); StuckChoice(E, g.alts, pos) && StuckCode(E, c.tl, pos)
    case _ => StuckCode(E, c.tl, pos)
  }

  predicate StuckChoice(E: Env, a: Choice, pos: nat)
    requires ValidChoice(a)
    decreases a
  {
    StuckCode(E, a.c, pos) && (a.Or? ==> StuckChoice(E, a.more, pos))
  }

  /** Neither a match nor the end of a group can be reached. */
  lemma {:induction false} CodeStops(E: Env, k: Todo, st: St, b: Chain, x: Option<nat>)
    requires Fit(E, k, st, b) && StuckCode(E, k.rest, st.pos)
    ensures !Found(E, k, st, b, x)
    decreases k.rest
  {
    hide Run, Track, Gains, SpanGains, Weight;
    FitNext(E, k, st, b, 0);
    assert st.(pos := st.pos + 0) == st;
    match k.rest.hd
    case Many(t, min, max, lazy, _) =>
      ManyGains(E, k, st, b, x);
      assert Reach(E, t, st.pos, Limit(E, max, st.pos)) == 0;
      if min == 0 {
        CodeStops(E, Next(k), st, b, x);
        SpanStep(E, Next(k), st, b, lazy, 0, 0, x);
      }
    case Bra(_, alts, _) =>
      BraGains(E, k, st, b, x);
      ChoiceStops(E, alts, k.rest.hd, Next(k), st, b, x);
    case Zero(g, lazy) =>
      ZeroGains(E, k, st, b, x);
      var b1 := Block(st.pos, b);
      var bt, bs := if lazy then b else b1, if lazy then b1 else b;
      CodeStops(E, Next(k), st, bs, x);
      BraGains(E, Push(g, Next(k)), st, bt, x);
      ChoiceStops(E, g.alts, g, Next(k), st, bt, x);
    case Chars(_) => ItemGains(E, k, st, b, x);
    case One(_) => ItemGains(E, k, st, b, x);
    case _ =>
      ItemGains(E, k, st, b, x);
      CodeStops(E, Next(k), st, b, x);
  }

  lemma {:induction false} ChoiceStops(E: Env, a: Choice, g: Node, k: Todo, st: St, b: Chain, x: Option<nat>)
    requires Fit(E, k, st, b) && ValidChoice(a) && g.Bra? && ValidNode(g) && StuckChoice(E, a, st.pos)
    ensures !ChoiceGains(E, a, g, k, st, b, x)
    decreases a
  {
    hide Run, Track, ChoiceGains, Gains, Weight, ChoiceSize;
    ChoiceStepGains(E, a, g, k, st, b, x);
    CodeStops(E, Enter(a, g, st.pos, k), st, Block(st.pos, b), x);
    if a.Or? { ChoiceStops(E, a.more, g, k, st, b, x); }
  }

  /** An attempt there fails at once. */
  lemma AttemptStops(E: Env, alts: Alts, veto: int, i: nat)
    requires ValidAlts(alts) && i <= |E.s| && ValidChoice(LowerAlts(alts)) && StuckChoice(E, LowerAlts(alts), i)
    ensures Attempt(E, alts, veto, i) == None && AttemptTrack(E, alts, veto, i).closed == {}
  {
    hide Run, Track;
    PatternValid(alts);
    BeginFit(E, alts, veto, i);
    var k, st, b := Begin(alts, veto), St(i, map[]), Block(i, Null);
    assert StuckCode(E, k.rest, i);
    CodeStops(E, k, st, b, None);
    forall x ensures x !in Track(E, k, st, b).closed { CodeStops(E, k, st, b, Some(x)); }
  }
}
