/**
 * The machine against the ordered lists of ways to match. Whatever the machine accepts is one
 * of the listed ways; on tame programs (greedy group repeats whose bodies consume) it accepts
 * exactly the first one.
 */
module Ordered {
  import opened Wrappers
  import opened Subject
  import opened Regex
  import opened Program
  import opened Machine

  /** All ways to finish `k` from `st`, in order. */
  ghost function TodoEnds(E: Env, k: Todo, st: St): seq<St>
    requires Valid(k)
    decreases k, 3
  {
    LeaveAll(E, k, CodeEnds(E, k.rest, st))
  }

  ghost function TodoEndsAll(E: Env, k: Todo, sts: seq<St>): seq<St>
    requires Valid(k)
    decreases k, 4, |sts|
  {
    if sts == [] then [] else TodoEnds(E, k, sts[0]) + TodoEndsAll(E, k, sts[1..])
  }

  /** Ways to go on once the rest of the innermost branch has been matched, ending in `r`. */
  ghost function Leave(E: Env, k: Todo, r: St): seq<St>
    requires Valid(k)
    decreases k, 1
  {
    match k
    case Top(_, veto) => if r.pos == veto then [] else [r]
    case In(_, _, g, start, up) => TodoEndsAll(E, up, KetEnds(E, g, start, Close(g.cap, start, r)))
  }

  ghost function LeaveAll(E: Env, k: Todo, rs: seq<St>): seq<St>
    requires Valid(k)
    decreases k, 2, |rs|
  {
    if rs == [] then [] else Leave(E, k, rs[0]) + LeaveAll(E, k, rs[1..])
  }

  function First<T>(xs: seq<T>): Option<T> {
    if xs == [] then None else Some(xs[0])
  }

  // ----- distribution over concatenation -----

  lemma {:induction false} TodoEndsAllAppend(E: Env, k: Todo, a: seq<St>, b: seq<St>)
    requires Valid(k)
    ensures TodoEndsAll(E, k, a + b) == TodoEndsAll(E, k, a) + TodoEndsAll(E, k, b)
    decreases |a|
  {
    if a == [] {
      assert a + b == b;
    } else {
      hide TodoEnds;
      assert (a + b)[0] == a[0] && (a + b)[1..] == a[1..] + b;
      TodoEndsAllAppend(E, k, a[1..], b);
      Assoc(TodoEnds(E, k, a[0]), TodoEndsAll(E, k, a[1..]), TodoEndsAll(E, k, b));
    }
  }

  lemma {:induction false} LeaveAllAppend(E: Env, k: Todo, a: seq<St>, b: seq<St>)
    requires Valid(k)
    ensures LeaveAll(E, k, a + b) == LeaveAll(E, k, a) + LeaveAll(E, k, b)
    decreases |a|
  {
    if a == [] {
      assert a + b == b;
    } else {
      assert (a + b)[1..] == a[1..] + b;
      LeaveAllAppend(E, k, a[1..], b);
    }
  }

  /** Matching a node and then the rest is matching the rest from each way through the node. */
  lemma {:induction false} LeaveRest(E: Env, k: Todo, sts: seq<St>)
    requires Valid(k)
    ensures LeaveAll(E, k, CodeEndsAll(E, k.rest, sts)) == TodoEndsAll(E, k, sts)
    decreases |sts|
  {
    if sts != [] {
      LeaveRest(E, k, sts[1..]);
      LeaveAllAppend(E, k, CodeEnds(E, k.rest, sts[0]), CodeEndsAll(E, k.rest, sts[1..]));
    }
  }

  /** `k` without what is left of its branch does not matter once the branch is done. */
  lemma {:induction false} LeaveAllRest(E: Env, k: Todo, rest: Code, rs: seq<St>)
    requires Valid(k) && ValidCode(rest)
    ensures LeaveAll(E, k.(rest := rest), rs) == LeaveAll(E, k, rs)
    decreases |rs|
  {
    if rs != [] {
      LeaveAllRest(E, k, rest, rs[1..]);
    }
  }

  lemma {:induction false} StepNode(E: Env, k: Todo, st: St)
    requires Valid(k) && k.rest.Then?
    ensures Valid(k.(rest := k.rest.tl)) && ValidNode(k.rest.hd)
    ensures TodoEnds(E, k, st) == TodoEndsAll(E, k.(rest := k.rest.tl), NodeEnds(E, k.rest.hd, st))
  {
    var next := k.(rest := k.rest.tl);
    var sts := NodeEnds(E, k.rest.hd, st);
    LeaveRest(E, next, sts);
    LeaveAllRest(E, next, k.rest, CodeEndsAll(E, next.rest, sts));
  }

  lemma {:induction false} TodoOne(E: Env, k: Todo, st: St)
    requires Valid(k)
    ensures TodoEndsAll(E, k, [st]) == TodoEnds(E, k, st)
  {
    assert TodoEndsAll(E, k, [st][1..]) == [];
  }

  lemma {:induction false} StepPush(E: Env, g: Node, k: Todo, st: St)
    requires Valid(k) && ValidNode(g)
    ensures Valid(Push(g, k))
    ensures TodoEnds(E, Push(g, k), st) == TodoEndsAll(E, k, NodeEnds(E, g, st))
  {
    assert ValidCode(Then(g, k.rest));
    StepNode(E, Push(g, k), st);
    assert Push(g, k).(rest := k.rest) == k;
  }

  /** Ways on from the alternatives `a` of a group entered at `st`. */
  ghost function ChoiceTodo(E: Env, a: Choice, g: Node, k: Todo, st: St): seq<St>
    requires Valid(k) && ValidChoice(a) && g.Bra? && ValidNode(g)
  {
    TodoEndsAll(E, k, KetEndsAll(E, g, st.pos, CloseAll(g.cap, st.pos, ChoiceEnds(E, a, st))))
  }

  lemma {:induction false} LeaveGroup(E: Env, k: Todo, rs: seq<St>)
    requires Valid(k) && k.In?
    ensures LeaveAll(E, k, rs) == TodoEndsAll(E, k.up, KetEndsAll(E, k.g, k.start, CloseAll(k.g.cap, k.start, rs)))
    decreases |rs|
  {
    var closed := CloseAll(k.g.cap, k.start, rs);
    if rs != [] {
      LeaveGroup(E, k, rs[1..]);
      assert closed[1..] == CloseAll(k.g.cap, k.start, rs[1..]);
      TodoEndsAllAppend(E, k.up, KetEnds(E, k.g, k.start, closed[0]), KetEndsAll(E, k.g, k.start, closed[1..]));
    }
  }

  lemma {:induction false} EnterChoice(E: Env, a: Choice, g: Node, k: Todo, st: St)
    requires Valid(k) && ValidChoice(a) && g.Bra? && ValidNode(g)
    ensures Valid(Enter(a, g, st.pos, k))
    ensures ChoiceTodo(E, a, g, k, st) ==
            TodoEnds(E, Enter(a, g, st.pos, k), st) + if a.Or? then ChoiceTodo(E, a.more, g, k, st) else []
  {
    var here, there := CodeEnds(E, a.c, st), if a.Or? then ChoiceEnds(E, a.more, st) else [];
    var e := Enter(a, g, st.pos, k);
    LeaveGroup(E, e, here);
    LeaveGroup(E, e, here + there);
    LeaveGroup(E, e, there);
    LeaveAllAppend(E, e, here, there);
  }

  // ----- repeats of one byte -----

  ghost function Downs(st: St, lo: nat, hi: nat): seq<St>
    requires lo <= hi
    decreases hi
  {
    [st.(pos := st.pos + hi)] + if hi == lo then [] else Downs(st, lo, hi - 1)
  }

  ghost function Ups(st: St, lo: nat, hi: nat): seq<St>
    requires lo <= hi
    decreases hi - lo
  {
    [st.(pos := st.pos + lo)] + if hi == lo then [] else Ups(st, lo + 1, hi)
  }

  ghost function Span(lazy: bool, st: St, lo: nat, hi: nat): seq<St> {
    if hi < lo then [] else if lazy then Ups(st, lo, hi) else Downs(st, lo, hi)
  }

  lemma {:induction false} SpanShift(lazy: bool, st: St, lo: nat, hi: nat)
    requires hi > 0
    ensures Span(lazy, st.(pos := st.pos + 1), Pred(lo), hi - 1) ==
            Span(lazy, st, if lo == 0 then 1 else lo, hi)
    decreases hi, hi - lo
  {
    var l := if lo == 0 then 1 else lo;
    if l < hi {
      SpanShift(lazy, st, if lazy then l + 1 else lo, if lazy then hi else hi - 1);
    }
  }

  lemma {:induction false} DownsEnd(st: St, hi: nat)
    ensures Downs(st, 0, hi) == (if hi == 0 then [] else Downs(st, 1, hi)) + [st]
    decreases hi
  {
    assert st.(pos := st.pos + 0) == st;
    if hi > 0 {
      DownsEnd(st, hi - 1);
    }
  }

  lemma {:induction false} SpanFirst(lazy: bool, st: St, lo: nat, hi: nat)
    requires hi > 0
    ensures var more := Span(lazy, st.(pos := st.pos + 1), Pred(lo), hi - 1);
            Span(lazy, st, lo, hi) == if lo > 0 then more else Order(lazy, [st], more)
  {
    assert st.(pos := st.pos + 0) == st;
    SpanShift(lazy, st, lo, hi);
    DownsEnd(st, hi);
  }

  /** One byte of a run, then the rest of it. */
  lemma ReachStep(E: Env, t: Test, max: int, i: nat)
    requires t.Valid() && i <= |E.s| && max >= -1
    ensures max == 0 || !Hit(E, t, i) ==> Reach(E, t, i, Limit(E, max, i)) == 0
    ensures max != 0 && Hit(E, t, i) ==>
              i < |E.s| && Reach(E, t, i, Limit(E, max, i)) == 1 + Reach(E, t, i + 1, Limit(E, Dec(max), i + 1))
  {
    if max != 0 && Hit(E, t, i) {
      assert Limit(E, Dec(max), i + 1) == Limit(E, max, i) - 1;
    }
  }

  lemma SpanNone(lazy: bool, st: St, lo: nat)
    ensures Span(lazy, st, lo, 0) == if lo == 0 then [st] else []
  {
    assert st.(pos := st.pos + 0) == st;
  }

  lemma TestNone(E: Env, t: Test, min: nat, max: int, lazy: bool, st: St)
    requires t.Valid() && (max == 0 ==> min == 0) && (max == 0 || !Hit(E, t, st.pos))
    ensures TestEnds(E, t, min, max, lazy, st) == if min == 0 then [st] else []
  {
  }

  lemma TestMore(E: Env, t: Test, min: nat, max: int, lazy: bool, st: St)
    requires t.Valid() && max != 0 && Hit(E, t, st.pos)
    ensures var more := TestEnds(E, t, Pred(min), Dec(max), lazy, st.(pos := st.pos + 1));
            TestEnds(E, t, min, max, lazy, st) == if min > 0 then more else Order(lazy, [st], more)
  {
  }

  lemma {:induction false} TestReach(E: Env, t: Test, min: nat, max: int, lazy: bool, st: St, r: nat)
    requires t.Valid() && st.pos <= |E.s| && max >= -1 && (max >= 0 ==> min <= max)
    requires r == Reach(E, t, st.pos, Limit(E, max, st.pos))
    ensures TestEnds(E, t, min, max, lazy, st) == Span(lazy, st, min, r)
    decreases |E.s| - st.pos
  {
    ReachStep(E, t, max, st.pos);
    if max == 0 || !Hit(E, t, st.pos) {
      SpanNone(lazy, st, min);
      TestNone(E, t, min, max, lazy, st);
    } else {
      TestReach(E, t, Pred(min), Dec(max), lazy, st.(pos := st.pos + 1), r - 1);
      SpanFirst(lazy, st, min, r);
      TestMore(E, t, min, max, lazy, st);
    }
  }

  /** The scan for the longest run visits the same ends as byte-by-byte backtracking. */
  lemma TestSpan(E: Env, t: Test, min: nat, max: int, lazy: bool, st: St)
    requires t.Valid() && st.pos <= |E.s| && max >= -1 && (max >= 0 ==> min <= max)
    ensures TestEnds(E, t, min, max, lazy, st) == Span(lazy, st, min, Reach(E, t, st.pos, Limit(E, max, st.pos)))
  {
    TestReach(E, t, min, max, lazy, st, Reach(E, t, st.pos, Limit(E, max, st.pos)));
  }

  // ----- tame programs -----

  predicate Nullable(n: Node) {
    match n
    case Chars(run) => false
    case One(_) => false
    case Many(_, min, _, _, _) => min == 0
    case AtStart => true
    case AtEnd => true
    case Number(_) => true
    case Bra(_, alts, _) => NullableChoice(alts)
    case Zero(_, _) => true
  }

  predicate NullableCode(c: Code) {
    c.Then? ==> Nullable(c.hd) && NullableCode(c.tl)
  }

  predicate NullableChoice(a: Choice) {
    NullableCode(a.c) || (a.Or? && NullableChoice(a.more))
  }

  /**
   * `open`: the ket of an enclosing repeating group can be reached from behind the item without
   * consuming. There, groups that may be skipped are tried before going on, and groups that may be
   * skipped or repeated consume. Elsewhere nothing is asked.
   */
  predicate Tame(n: Node, open: bool) {
    match n
    case Bra(_, alts, ket) => TameChoice(alts, open || !ket.Plain?) && (open && !ket.Plain? ==> !NullableChoice(alts))
    case Zero(g, lazy) => Tame(g, open) && (open ==> !lazy && !Nullable(g))
    case _ => true
  }

  predicate TameCode(c: Code, open: bool) {
    c.Then? ==> Tame(c.hd, open && NullableCode(c.tl)) && TameCode(c.tl, open)
  }

  predicate TameChoice(a: Choice, open: bool) {
    TameCode(a.c, open) && (a.Or? ==> TameChoice(a.more, open))
  }

  /** Behind the rest of the innermost branch, such a ket can be reached without consuming. */
  ghost predicate OpenEnd(k: Todo)
    decreases k, 0
  {
    k.In? && ((k.g.Bra? && !k.g.ket.Plain?) || OpenTodo(k.up))
  }

  ghost predicate OpenTodo(k: Todo)
    decreases k, 1
  {
    NullableCode(k.rest) && OpenEnd(k)
  }

  ghost predicate TameTodo(k: Todo) {
    TameCode(k.rest, OpenEnd(k)) && (k.In? ==> Tame(k.g, OpenTodo(k.up)) && TameTodo(k.up))
  }

  /**
   * The empty-pass test tells the truth: for each open repeating group, something that consumes
   * is still ahead of its ket (`sure`), or its block is already behind `pos`, or the block is that
   * of the start of the pass.
   */
  ghost predicate Moves(b: Chain, k: Todo, pos: nat, sure: bool)
    requires Covers(b, k)
  {
    k.In? ==>
      var sure1 := sure || !NullableCode(k.rest);
      (k.g.Bra? && !k.g.ket.Plain? ==> sure1 || b.at < pos || b.at == k.start) && Moves(b.prev, k.up, pos, sure1)
  }

  lemma {:induction false} MovesSure(b: Chain, k: Todo, pos: nat)
    requires Covers(b, k)
    ensures Moves(b, k, pos, true)
  {
    if k.In? {
      MovesSure(b.prev, k.up, pos);
    }
  }

  lemma {:induction false} MovesPast(b: Chain, k: Todo, pos: nat, after: nat, sure: bool)
    requires Covers(b, k) && Sorted(b, pos) && pos < after
    ensures Moves(b, k, after, sure)
  {
    if k.In? {
      assert Sorted(b.prev, b.at);
      MovesPast(b.prev, k.up, pos, after, sure || !NullableCode(k.rest));
    }
  }

  lemma {:induction false} MovesMore(b: Chain, k: Todo, rest: Code, pos: nat, sure: bool, sure1: bool)
    requires Covers(b, k) && Moves(b, k, pos, sure)
    requires sure || !NullableCode(k.rest) ==> sure1 || !NullableCode(rest)
    ensures Covers(b, k.(rest := rest)) && Moves(b, k.(rest := rest), pos, sure1)
    decreases k
  {
    if k.In? {
      MovesMore(b.prev, k.up, k.up.rest, pos, sure || !NullableCode(k.rest), sure1 || !NullableCode(rest));
    }
  }

  /** Where no such ket can be reached without consuming, any chain will do. */
  lemma {:induction false} MovesClosed(b: Chain, k: Todo, pos: nat, sure: bool)
    requires Covers(b, k) && (sure || !OpenTodo(k))
    ensures Moves(b, k, pos, sure)
  {
    if k.In? {
      MovesClosed(b.prev, k.up, pos, sure || !NullableCode(k.rest));
    }
  }

  lemma TameStep(k: Todo)
    requires TameTodo(k) && k.rest.Then?
    ensures var next := k.(rest := k.rest.tl);
            && Tame(k.rest.hd, OpenTodo(next)) && TameTodo(next) && OpenEnd(next) == OpenEnd(k)
    ensures NullableCode(k.rest) == (Nullable(k.rest.hd) && NullableCode(k.rest.tl))
    ensures k.rest.hd.Bra? ==> Nullable(k.rest.hd) == NullableChoice(k.rest.hd.alts)
  {
    var next := k.(rest := k.rest.tl);
    assert OpenEnd(next) == OpenEnd(k);
    assert OpenTodo(next) == (NullableCode(k.rest.tl) && OpenEnd(k));
  }

  /** Going through a group once more, or through one that may be skipped: an extra block does no harm. */
  lemma TamePush(b: Chain, g: Node, k: Todo, pos: nat)
    requires TameTodo(k) && Tame(g, OpenTodo(k)) && (OpenTodo(k) ==> !Nullable(g)) && Covers(b, Push(g, k))
    ensures TameTodo(Push(g, k)) && Moves(b, Push(g, k), pos, false)
  {
    var taken := Push(g, k);
    assert taken.rest.tl == k.rest && OpenEnd(taken) == OpenEnd(k);
    assert NullableCode(taken.rest) == (Nullable(g) && NullableCode(k.rest));
    MovesClosed(b, taken, pos, false);
  }

  lemma TameEnter(a: Choice, g: Node, start: nat, k: Todo)
    requires TameTodo(k) && g.Bra? && Tame(g, OpenTodo(k)) && TameChoice(a, OpenTodo(k) || !g.ket.Plain?)
    ensures TameTodo(Enter(a, g, start, k))
  {
  }

  // ----- the machine is right -----

  /** `r` is one of `ways`, and the first of them on a tame program. */
  ghost predicate Right(r: Option<St>, ways: seq<St>, tame: bool) {
    (r.Some? ==> r.value in ways) && (tame ==> r == First(ways))
  }

  function Else<T>(r: Option<T>, other: Option<T>): Option<T> {
    if r.Some? then r else other
  }

  lemma EitherRight(r: Option<St>, ways: seq<St>, r1: Option<St>, ways1: seq<St>, tame: bool)
    requires Right(r, ways, tame) && Right(r1, ways1, tame)
    ensures Right(Else(r, r1), ways + ways1, tame)
  {
  }

  lemma EitherMember(r: Option<St>, ways: seq<St>, r1: Option<St>, ways1: seq<St>, tame: bool)
    requires Right(r, ways, tame) && Right(r1, ways1, tame) && (tame ==> ways1 == [])
    ensures Right(Else(r, r1), ways1 + ways, tame)
  {
  }

  ghost predicate Ready(E: Env, k: Todo, st: St, b: Chain, tame: bool) {
    Fit(E, k, st, b) && (tame ==> TameTodo(k) && Moves(b, k, st.pos, false))
  }

  lemma {:induction false} RunRight(E: Env, k: Todo, st: St, b: Chain, tame: bool)
    requires Ready(E, k, st, b, tame)
    ensures Right(Run(E, k, st, b), TodoEnds(E, k, st), tame)
    decreases |E.s| - st.pos, Weight(k, st.pos), 1, 0
  {
    if k.rest.Empty? {
      RunEndRight(E, k, st, b, tame);
    } else {
      var node, next := k.rest.hd, k.(rest := k.rest.tl);
      match node
      case Chars(_) => RunByteRight(E, k, st, b, tame);
      case One(_) => RunByteRight(E, k, st, b, tame);
      case Many(_, _, _, _, _) => RunManyRight(E, k, st, b, tame);
      case AtStart => StepNode(E, k, st); RunOn(E, k, st, b, tame); TodoOne(E, next, st);
      case AtEnd => StepNode(E, k, st); RunOn(E, k, st, b, tame); TodoOne(E, next, st);
      case Number(_) => StepNode(E, k, st); RunOn(E, k, st, b, tame); TodoOne(E, next, st);
      case Bra(_, _, _) => RunBraRight(E, k, st, b, tame);
      case Zero(_, _) => RunZeroRight(E, k, st, b, tame);
    }
  }

  lemma {:induction false} RunByteRight(E: Env, k: Todo, st: St, b: Chain, tame: bool)
    requires Ready(E, k, st, b, tame) && k.rest.Then? && (k.rest.hd.Chars? || k.rest.hd.One?)
    ensures Right(Run(E, k, st, b), TodoEnds(E, k, st), tame)
    decreases |E.s| - st.pos, Weight(k, st.pos), 0, 0
  {
    StepNode(E, k, st);
    var node, next := k.rest.hd, k.(rest := k.rest.tl);
    var n := if node.Chars? then |node.run| else 1;
    var st1 := st.(pos := st.pos + n);
    if node.One? {
      TestSpan(E, node.t, 1, 1, false, st);
      ReachStep(E, node.t, 1, st.pos);
    }
    if if node.Chars? then RunAt(E, node.run, st.pos) else Hit(E, node.t, st.pos) {
      if tame {
        TameStep(k);
        MovesPast(b, next, st.pos, st1.pos, false);
      }
      RunRight(E, next, st1, b, tame);
      TodoOne(E, next, st1);
    }
  }

  lemma {:induction false} RunManyRight(E: Env, k: Todo, st: St, b: Chain, tame: bool)
    requires Ready(E, k, st, b, tame) && k.rest.Then? && k.rest.hd.Many?
    ensures Right(Run(E, k, st, b), TodoEnds(E, k, st), tame)
    decreases |E.s| - st.pos, Weight(k, st.pos), 0, 0
  {
    StepNode(E, k, st);
    var node, next := k.rest.hd, k.(rest := k.rest.tl);
    TestSpan(E, node.t, node.min, node.max, node.lazy, st);
    var r := Reach(E, node.t, st.pos, Limit(E, node.max, st.pos));
    if node.min <= r {
      if tame {
        TameStep(k);
        if node.min == 0 { MovesMore(b, k, next.rest, st.pos, false, false); }
      }
      RunSpanRight(E, next, st, b, node.lazy, node.min, r, tame);
    }
  }

  lemma {:induction false} RunBraRight(E: Env, k: Todo, st: St, b: Chain, tame: bool)
    requires Ready(E, k, st, b, tame) && k.rest.Then? && k.rest.hd.Bra?
    ensures Right(Run(E, k, st, b), TodoEnds(E, k, st), tame)
    decreases |E.s| - st.pos, Weight(k, st.pos), 0, 0
  {
    StepNode(E, k, st);
    var node, next := k.rest.hd, k.(rest := k.rest.tl);
    assert Weight(k, st.pos) == NodeSize(node) + Weight(next, st.pos);
    if tame {
      TameStep(k);
      MovesMore(b, k, next.rest, st.pos, false, !Nullable(node));
    }
    RunChoiceRight(E, node.alts, node, next, st, b, tame);
    assert TodoEndsAll(E, next, BraEnds(E, node, st)) == ChoiceTodo(E, node.alts, node, next, st);
  }

  lemma {:induction false} RunOn(E: Env, k: Todo, st: St, b: Chain, tame: bool)
    requires Ready(E, k, st, b, tame) && k.rest.Then? && Nullable(k.rest.hd)
    ensures var next := k.(rest := k.rest.tl);
            Fit(E, next, st, b) && Right(Run(E, next, st, b), TodoEnds(E, next, st), tame)
    decreases |E.s| - st.pos, Weight(k, st.pos), 0, 0
  {
    var next := k.(rest := k.rest.tl);
    assert Weight(k, st.pos) == NodeSize(k.rest.hd) + Weight(next, st.pos);
    if tame { MovesMore(b, k, next.rest, st.pos, false, false); }
    RunRight(E, next, st, b, tame);
  }

  lemma {:induction false} RunZeroRight(E: Env, k: Todo, st: St, b: Chain, tame: bool)
    requires Ready(E, k, st, b, tame) && k.rest.Then? && k.rest.hd.Zero?
    ensures Right(Run(E, k, st, b), TodoEnds(E, k, st), tame)
    decreases |E.s| - st.pos, Weight(k, st.pos), 0, 1
  {
    StepNode(E, k, st);
    var g, lazy, next := k.rest.hd.g, k.rest.hd.lazy, k.(rest := k.rest.tl);
    var taken := Push(g, next);
    assert Weight(k, st.pos) == NodeSize(k.rest.hd) + Weight(next, st.pos);
    assert Weight(taken, st.pos) == NodeSize(g) + Weight(next, st.pos);
    StepPush(E, g, next, st);
    TodoOne(E, next, st);
    CoversPush(b, next, st.pos);
    if tame {
      TameStep(k);
      assert OpenTodo(next) ==> !lazy && !Nullable(g);
      MovesMore(b, k, next.rest, st.pos, false, false);
    }
    if lazy {
      TodoEndsAllAppend(E, next, [st], NodeEnds(E, g, st));
      if tame {
        MovesClosed(Block(st.pos, b), next, st.pos, false);
        TamePush(b, g, next, st.pos);
      }
      RunRight(E, next, st, Block(st.pos, b), tame);
      RunRight(E, taken, st, b, tame);
      EitherRight(Run(E, next, st, Block(st.pos, b)), TodoEnds(E, next, st), Run(E, taken, st, b), TodoEnds(E, taken, st), tame);
    } else {
      TodoEndsAllAppend(E, next, NodeEnds(E, g, st), [st]);
      if tame { TamePush(Block(st.pos, b), g, next, st.pos); }
      RunRight(E, next, st, b, tame);
      RunRight(E, taken, st, Block(st.pos, b), tame);
      EitherRight(Run(E, taken, st, Block(st.pos, b)), TodoEnds(E, taken, st), Run(E, next, st, b), TodoEnds(E, next, st), tame);
    }
  }

  lemma KetWays(E: Env, g: Node, start: nat, r: St)
    requires g.Bra? && ValidNode(g) && !g.ket.Plain? && r.pos <= |E.s|
    ensures KetEnds(E, g, start, r) == Order(g.ket.Min?, [r], if start < r.pos then NodeEnds(E, g, r) else [])
  {
    assert NodeEnds(E, g, r) == BraEnds(E, g, r);
  }

  lemma {:induction false} RunEndRight(E: Env, k: Todo, st: St, b: Chain, tame: bool)
    requires Ready(E, k, st, b, tame) && k.rest.Empty?
    ensures Right(Run(E, k, st, b), TodoEnds(E, k, st), tame)
    decreases |E.s| - st.pos, Weight(k, st.pos), 0, 1
  {
    assert [st][1..] == [];
    assert LeaveAll(E, k, [st]) == Leave(E, k, st) + LeaveAll(E, k, []);
    assert TodoEnds(E, k, st) == Leave(E, k, st);
    if k.In? {
      RunKetRight(E, k, st, b, tame);
    }
  }

  lemma {:induction false} RunKetRight(E: Env, k: Todo, st: St, b: Chain, tame: bool)
    requires Ready(E, k, st, b, tame) && k.rest.Empty? && k.In?
    ensures Right(RunEnd(E, k, st, b), Leave(E, k, st), tame)
    decreases |E.s| - st.pos, Weight(k, st.pos), 0, 0
  {
    var g, up := k.g, k.up;
    var closed := Close(g.cap, k.start, st);
    assert b.Block? && Sorted(b.prev, b.at) && Covers(b.prev, up);
    assert Sorted(b.prev, st.pos) && Valid(up);
    hide Run, NodeEnds, CodeEnds;
    RunRight(E, up, closed, b.prev, tame);
    TodoOne(E, up, closed);
    if !g.ket.Plain? {
      var again := if k.start < st.pos then NodeEnds(E, g, closed) else [];
      KetWays(E, g, k.start, closed);
      TodoEndsAllAppend(E, up, [closed], again);
      TodoEndsAllAppend(E, up, again, [closed]);
      var left, ways := Run(E, up, closed, b.prev), TodoEnds(E, up, closed);
      if st.pos == b.at {
        assert tame ==> b.at == k.start && again == [];
        EitherRight(left, ways, None, TodoEndsAll(E, up, again), tame);
        EitherMember(left, ways, None, TodoEndsAll(E, up, again), tame);
      } else {
        StepPush(E, g, up, closed);
        CoversPush(b.prev, up, st.pos);
        if tame { TamePush(Block(st.pos, b.prev), g, up, st.pos); }
        assert Weight(Push(g, up), st.pos) == NodeSize(g) + Weight(up, st.pos);
        RunRight(E, Push(g, up), closed, Block(st.pos, b.prev), tame);
        var round := Run(E, Push(g, up), closed, Block(st.pos, b.prev));
        EitherRight(left, ways, round, TodoEndsAll(E, up, again), tame);
        EitherRight(round, TodoEndsAll(E, up, again), left, ways, tame);
      }
    }
  }

  lemma {:induction false} RunChoiceRight(E: Env, a: Choice, g: Node, k: Todo, st: St, b: Chain, tame: bool)
    requires Fit(E, k, st, b) && ValidChoice(a) && g.Bra? && ValidNode(g)
    requires tame ==> TameTodo(k) && Tame(g, OpenTodo(k)) && TameChoice(a, OpenTodo(k) || !g.ket.Plain?)
    requires tame ==> Moves(b, k, st.pos, !NullableChoice(a))
    ensures Right(RunChoice(E, a, g, k, st, b), ChoiceTodo(E, a, g, k, st), tame)
    decreases |E.s| - st.pos, ChoiceSize(a) + 1 + Weight(k, st.pos), 2, 0
  {
    var e, b1 := Enter(a, g, st.pos, k), Block(st.pos, b);
    EnterChoice(E, a, g, k, st);
    if tame {
      TameEnter(a, g, st.pos, k);
      MovesMore(b, k, k.rest, st.pos, !NullableChoice(a), !NullableCode(a.c));
    }
    RunRight(E, e, st, b1, tame);
    if a.Or? {
      if tame { MovesMore(b, k, k.rest, st.pos, !NullableChoice(a), !NullableChoice(a.more)); }
      RunChoiceRight(E, a.more, g, k, st, b, tame);
    }
  }

  lemma {:induction false} RunSpanRight(E: Env, k: Todo, st: St, b: Chain, lazy: bool, lo: nat, hi: nat, tame: bool)
    requires Fit(E, k, st, b) && lo <= hi && st.pos + hi <= |E.s|
    requires tame ==> TameTodo(k) && (lo == 0 ==> Moves(b, k, st.pos, false))
    ensures Right(if lazy then RunUp(E, k, st, b, lo, hi) else RunDown(E, k, st, b, lo, hi),
                  TodoEndsAll(E, k, Span(lazy, st, lo, hi)), tame)
    decreases |E.s| - st.pos, Weight(k, st.pos), 2, hi - lo
  {
    var n := if lazy then lo else hi;
    var st1 := st.(pos := st.pos + n);
    if n > 0 { MovesPast(b, k, st.pos, st1.pos, false); }
    RunRight(E, k, st1, b, tame);
    TodoOne(E, k, st1);
    if lo < hi {
      var lo1, hi1 := if lazy then lo + 1 else lo, if lazy then hi else hi - 1;
      TodoEndsAllAppend(E, k, [st1], Span(lazy, st, lo1, hi1));
      RunSpanRight(E, k, st, b, lazy, lo1, hi1, tame);
      EitherRight(Run(E, k, st1, b), TodoEnds(E, k, st1),
                  if lazy then RunUp(E, k, st, b, lo1, hi1) else RunDown(E, k, st, b, lo1, hi1),
                  TodoEndsAll(E, k, Span(lazy, st, lo1, hi1)), tame);
      assert Span(lazy, st, lo, hi) == [st1] + Span(lazy, st, lo1, hi1);
    }
  }
}
