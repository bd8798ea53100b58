/** What single items match, said with the tables and the bytes of the subject alone. */
module Meaning {
  import opened Wrappers
  import opened Bytes
  import opened Subject
  import opened Regex
  import opened Machine
  import opened Ordered
  import opened Correct

  /** The pattern that consists of one item. */
  function Alone(a: Atom, q: Quant): Alts {
    Last(Cons(Piece(a, q), Nil))
  }

  lemma {:induction false} NilEndsAll(E: Env, sts: seq<St>)
    ensures BranchEndsAll(E, Nil, sts) == sts
    decreases |sts|
  {
    if sts != [] {
      NilEndsAll(E, sts[1..]);
      assert [sts[0]] + sts[1..] == sts;
    }
  }

  lemma {:induction false} NothingRuledOut(sts: seq<St>)
    ensures Without(-1, sts) == sts
    decreases |sts|
  {
    if sts != [] {
      NothingRuledOut(sts[1..]);
      assert [sts[0]] + sts[1..] == sts;
    }
  }

  lemma AloneIs(E: Env, a: Atom, q: Quant, i: nat)
    requires ValidAtom(a) && q.Valid() && !a.Group? && i <= |E.s|
    ensures ValidAlts(Alone(a, q)) && Attempt(E, Alone(a, q), -1, i) == First(PieceEnds(E, Piece(a, q), St(i, map[])))
  {
    var alts, st := Alone(a, q), St(i, map[]);
    assert ValidBranch(Nil) && ValidBranch(alts.b);
    assert ExactBranch(Nil, false) && ExactBranch(alts.b, false);
    AttemptIsFirst(E, alts, -1, i);
    NothingRuledOut(AltsEnds(E, alts, st));
    NilEndsAll(E, PieceEnds(E, Piece(a, q), st));
  }

  /** The bytes of a run, compared by their lower-case forms under CASELESS and as they are otherwise. */
  lemma LiteralAlone(E: Env, run: seq<byte>, i: nat)
    requires 1 <= |run| <= MAXLIT && i <= |E.s|
    ensures ValidAlts(Alone(Lit(run), Once))
    ensures Attempt(E, Alone(Lit(run), Once), -1, i) ==
            if i + |run| <= |E.s| &&
               (if E.opt.caseless then forall n :: 0 <= n < |run| ==> E.tab.lcc[run[n]] == E.tab.lcc[E.s[i + n]]
                else E.s[i..i + |run|] == run)
            then Some(St(i + |run|, map[])) else None
  {
    hide Attempt;
    AloneIs(E, Lit(run), Once, i);
    if i + |run| <= |E.s| && !E.opt.caseless {
      var there := E.s[i..i + |run|];
      assert forall n :: 0 <= n < |run| ==> there[n] == E.s[i + n];
      assert there == run <==> forall n :: 0 <= n < |run| ==> run[n] == E.s[i + n];
    }
  }

  /** What the bit of the type table, the map or the newline decides about one byte. */
  ghost predicate TakesByte(E: Env, t: Test, c: byte)
    requires t.Valid()
  {
    match t
    case Char(d) => if E.opt.caseless then E.tab.lcc[d] == E.tab.lcc[c] else d == c
    case NotChar(d) => if E.opt.caseless then E.tab.lcc[d] != E.tab.lcc[c] else d != c
    case Type(op) =>
      var type_ := E.tab.ctypes[c];
      if op == Digit || op == NotDigit then (op == Digit <==> type_ / 4 % 2 == 1)
      else if op == Space || op == NotSpace then (op == Space <==> type_ % 2 == 1)
      else if op == Word || op == NotWord then (op == Word <==> type_ / 16 % 2 == 1)
      else c != 10 || E.opt.dotall
    case Class(_, bits) => BitSet(bits[c / 8], c % 8)
  }

  lemma TakesIs(E: Env, t: Test, c: byte)
    requires t.Valid()
    ensures Accepts(E, t, c) <==> TakesByte(E, t, c)
  {
    if t.Type? {
      var type_ := E.tab.ctypes[c];
      BitIs(type_);
    }
  }

  lemma BitIs(b: nat)
    ensures BitSet(b, 0) == (b % 2 == 1) && BitSet(b, 2) == (b / 4 % 2 == 1) && BitSet(b, 4) == (b / 16 % 2 == 1)
  {
    var c := b / 2 / 2;
    assert c == b / 4 && c / 2 / 2 == b / 16;
    assert BitSet(b, 2) == BitSet(b / 2, 1) == BitSet(c, 0);
    assert BitSet(b, 4) == BitSet(b / 2, 3) == BitSet(c, 2) == BitSet(c / 2, 1) == BitSet(c / 2 / 2, 0);
  }

  /** A test on its own takes one byte. */
  lemma SingleAlone(E: Env, t: Test, i: nat)
    requires t.Valid() && !t.Char? && i <= |E.s|
    ensures ValidAlts(Alone(Single(t), Once))
    ensures Attempt(E, Alone(Single(t), Once), -1, i) ==
            if i < |E.s| && TakesByte(E, t, E.s[i]) then Some(St(i + 1, map[])) else None
  {
    hide Attempt;
    AloneIs(E, Single(t), Once, i);
    if i < |E.s| { TakesIs(E, t, E.s[i]); }
    var st := St(i, map[]);
    assert TestEnds(E, t, 0, 0, false, st.(pos := i + 1)) == [st.(pos := i + 1)];
  }

  /** `^` holds at the start, and in multiline mode behind a newline. */
  lemma CircAlone(E: Env, i: nat)
    requires i <= |E.s|
    ensures ValidAlts(Alone(Circ, Once))
    ensures Attempt(E, Alone(Circ, Once), -1, i) ==
            if (i == 0 && !E.notbol) || (i > 0 && E.opt.multiline && E.s[i - 1] == 10) then Some(St(i, map[])) else None
  {
    hide Attempt;
    AloneIs(E, Circ, Once, i);
  }

  /**
   * `$` holds at the end, unless that is not the end of a line, before a newline that is the last
   * byte, unless DOLLAR_ENDONLY forbids it, and in multiline mode before every newline.
   */
  lemma DollAlone(E: Env, i: nat)
    requires i <= |E.s|
    ensures ValidAlts(Alone(Doll, Once))
    ensures Attempt(E, Alone(Doll, Once), -1, i) ==
            if || (i == |E.s| && !E.noteol)
               || (i < |E.s| && E.s[i] == 10 && (E.opt.multiline || (i == |E.s| - 1 && !E.noteol && !E.opt.endonly)))
            then Some(St(i, map[])) else None
  {
    hide Attempt;
    AloneIs(E, Doll, Once, i);
  }

  /** All bytes from `i` to `j` pass the test, and there are not too many of them. */
  ghost predicate Taken(E: Env, t: Test, max: int, i: nat, j: nat)
    requires t.Valid()
  {
    i <= j <= |E.s| && (max < 0 || j - i <= max) && forall k :: i <= k < j ==> TakesByte(E, t, E.s[k])
  }

  /** A repeat takes as few bytes as permitted if it is lazy, as many as possible if it is greedy. */
  lemma RepeatAlone(E: Env, t: Test, q: Quant, i: nat)
    requires t.Valid() && !t.Char? && q.Valid() && q.Rep? && i <= |E.s|
    ensures ValidAlts(Alone(Single(t), q))
    ensures var a := Attempt(E, Alone(Single(t), q), -1, i);
            && (a.Some? <==> Taken(E, t, q.max, i, i + q.min))
            && (a.Some? ==>
                  && a.value.caps == map[] && Taken(E, t, q.max, i, a.value.pos) && i + q.min <= a.value.pos
                  && (if q.lazy then a.value.pos == i + q.min else !Taken(E, t, q.max, i, a.value.pos + 1)))
  {
    hide Attempt, Span, Reach, Taken, TestEnds, First;
    AloneIs(E, Single(t), q, i);
    var st, r := St(i, map[]), Reach(E, t, i, Limit(E, q.max, i));
    TestSpan(E, t, q.min, q.max, q.lazy, st);
    SpanHead(q.lazy, st, q.min, r);
    ReachTaken(E, t, q.max, i, q.min);
    ReachTaken(E, t, q.max, i, r);
    ReachTaken(E, t, q.max, i, r + 1);
  }

  lemma SpanHead(lazy: bool, st: St, lo: nat, hi: nat)
    ensures First(Span(lazy, st, lo, hi)) == if lo > hi then None else Some(st.(pos := st.pos + if lazy then lo else hi))
  {
    if lo <= hi {
      assert lazy ==> Ups(st, lo, hi)[0] == st.(pos := st.pos + lo);
      assert !lazy ==> Downs(st, lo, hi)[0] == st.(pos := st.pos + hi);
    }
  }

  lemma ReachTaken(E: Env, t: Test, max: int, i: nat, n: nat)
    requires t.Valid() && i <= |E.s| && max >= -1
    ensures Taken(E, t, max, i, i + n) <==> n <= Reach(E, t, i, Limit(E, max, i))
  {
    hide TakesByte, Accepts;
    var r := Reach(E, t, i, Limit(E, max, i));
    forall k | i <= k < |E.s| ensures Accepts(E, t, E.s[k]) <==> TakesByte(E, t, E.s[k]) { TakesIs(E, t, E.s[k]); }
    if n <= r {
      forall k | i <= k < i + n ensures TakesByte(E, t, E.s[k]) { assert Hit(E, t, k); }
    } else if i + n <= |E.s| && (max < 0 || n <= max) {
      assert !Hit(E, t, i + r) && !TakesByte(E, t, E.s[i + r]);
    }
  }
}
