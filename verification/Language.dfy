/**
 * Ordered backtracking lists exactly the spans of the language, and every span it captures is
 * in bounds and in the language of the group it is recorded for.
 */
module Language {
  import opened Subject
  import opened Regex

  // ----- the groups of a pattern -----

  ghost function PieceGroups(p: Piece): set<(nat, Alts)>
    decreases p
  {
    if p.a.Group? then {(p.a.cap, p.a.alts)} + AltsGroups(p.a.alts) else {}
  }

  ghost function BranchGroups(b: Branch): set<(nat, Alts)>
    decreases b
  {
    if b.Nil? then {} else PieceGroups(b.hd) + BranchGroups(b.tl)
  }

  ghost function AltsGroups(alts: Alts): set<(nat, Alts)>
    decreases alts
  {
    BranchGroups(alts.b) + if alts.Alt? then AltsGroups(alts.more) else {}
  }

  /** The span recorded under `n` is matched by a group of that number. */
  ghost predicate SpanOf(E: Env, G: set<(nat, Alts)>, n: nat, span: (nat, nat)) {
    span.0 <= span.1 <= |E.s| &&
    exists alts :: (n, alts) in G && ValidAlts(alts) && LangAlts(E, alts, span.0, span.1)
  }

  /** From `st` to `e`: forward, inside the subject, and every new capture belongs to its group. */
  ghost predicate Came(E: Env, G: set<(nat, Alts)>, st: St, e: St) {
    st.pos <= e.pos <= |E.s| &&
    forall n :: n in e.caps ==> (n in st.caps && e.caps[n] == st.caps[n]) || SpanOf(E, G, n, e.caps[n])
  }

  // ----- members of the lists -----

  lemma {:induction false} BranchFrom(E: Env, b: Branch, sts: seq<St>, e: St) returns (r: St)
    requires ValidBranch(b) && e in BranchEndsAll(E, b, sts)
    ensures r in sts && e in BranchEnds(E, b, r)
    decreases |sts|
  {
    r := sts[0];
    if e !in BranchEnds(E, b, r) {
      r := BranchFrom(E, b, sts[1..], e);
    }
  }

  lemma {:induction false} BranchInto(E: Env, b: Branch, sts: seq<St>, r: St, e: St)
    requires ValidBranch(b) && r in sts && e in BranchEnds(E, b, r)
    ensures e in BranchEndsAll(E, b, sts)
    decreases |sts|
  {
    if r != sts[0] {
      BranchInto(E, b, sts[1..], r, e);
    }
  }

  lemma {:induction false} TestFrom(E: Env, t: Test, q: Quant, sts: seq<St>, e: St) returns (r: St)
    requires t.Valid() && q.Rep? && e in TestEndsAll(E, t, q.min, q.max, q.lazy, sts)
    ensures r in sts && e in TestEnds(E, t, q.min, q.max, q.lazy, r)
    decreases |sts|
  {
    r := sts[0];
    if e !in TestEnds(E, t, q.min, q.max, q.lazy, r) {
      r := TestFrom(E, t, q, sts[1..], e);
    }
  }

  lemma {:induction false} RepFrom(E: Env, cap: nat, alts: Alts, min: nat, max: int, lazy: bool, sts: seq<St>, e: St) returns (r: St)
    requires ValidAlts(alts) && max >= -1 && e in GroupRepAll(E, cap, alts, min, max, lazy, sts)
    ensures r in sts && e in GroupRep(E, cap, alts, min, max, lazy, r)
    decreases |sts|
  {
    r := sts[0];
    if e !in GroupRep(E, cap, alts, min, max, lazy, r) {
      r := RepFrom(E, cap, alts, min, max, lazy, sts[1..], e);
    }
  }

  lemma {:induction false} RepInto(E: Env, cap: nat, alts: Alts, min: nat, max: int, lazy: bool, sts: seq<St>, r: St, e: St)
    requires ValidAlts(alts) && max >= -1 && r in sts && e in GroupRep(E, cap, alts, min, max, lazy, r)
    ensures e in GroupRepAll(E, cap, alts, min, max, lazy, sts)
    decreases |sts|
  {
    if r != sts[0] {
      RepInto(E, cap, alts, min, max, lazy, sts[1..], r, e);
    }
  }

  /** What one pass that ended in `r` contributes to a repetition. */
  ghost predicate Onward(E: Env, cap: nat, alts: Alts, lazy: bool, start: nat, r: St, e: St)
    requires ValidAlts(alts)
  {
    e == r || (start < r.pos <= |E.s| && e in GroupMore(E, cap, alts, lazy, r.pos, GroupEnds(E, cap, alts, r)))
  }

  lemma {:induction false} MoreFrom(E: Env, cap: nat, alts: Alts, lazy: bool, start: nat, rs: seq<St>, e: St) returns (r: St)
    requires ValidAlts(alts) && e in GroupMore(E, cap, alts, lazy, start, rs)
    ensures r in rs && Onward(E, cap, alts, lazy, start, r, e)
    decreases |rs|
  {
    r := rs[0];
    if !Onward(E, cap, alts, lazy, start, r, e) {
      r := MoreFrom(E, cap, alts, lazy, start, rs[1..], e);
    }
  }

  lemma {:induction false} MoreInto(E: Env, cap: nat, alts: Alts, lazy: bool, start: nat, rs: seq<St>, r: St, e: St)
    requires ValidAlts(alts) && r in rs && Onward(E, cap, alts, lazy, start, r, e)
    ensures e in GroupMore(E, cap, alts, lazy, start, rs)
    decreases |rs|
  {
    if r != rs[0] {
      MoreInto(E, cap, alts, lazy, start, rs[1..], r, e);
    }
  }

  // ----- soundness -----

  lemma CameVia(E: Env, G: set<(nat, Alts)>, st: St, r: St, e: St)
    requires Came(E, G, st, r) && Came(E, G, r, e)
    ensures Came(E, G, st, e)
  {
  }

  lemma PowerStep(E: Env, alts: Alts, n: nat, i: nat, m: nat, j: nat)
    requires ValidAlts(alts) && LangAlts(E, alts, i, m) && LangPower(E, alts, n, m, j)
    ensures LangPower(E, alts, n + 1, i, j)
  {
  }

  lemma {:induction false} TestSound(E: Env, t: Test, min: nat, max: int, lazy: bool, st: St, e: St) returns (n: nat)
    requires t.Valid() && st.pos <= |E.s| && max >= -1 && (max >= 0 ==> min <= max)
    requires e in TestEnds(E, t, min, max, lazy, st)
    ensures LangTest(E, t, n, st.pos, e.pos) && min <= n && (max < 0 || n <= max) && e.caps == st.caps
    decreases |E.s| - st.pos
  {
    if max == 0 || (min == 0 && e == st) {
      n := 0;
    } else {
      n := TestSound(E, t, Pred(min), Dec(max), lazy, st.(pos := st.pos + 1), e);
      n := n + 1;
    }
  }

  lemma {:induction false} PieceSound(E: Env, G: set<(nat, Alts)>, p: Piece, st: St, e: St)
    requires ValidAtom(p.a) && p.q.Valid() && st.pos <= |E.s| && PieceGroups(p) <= G
    requires e in PieceEnds(E, p, st)
    ensures LangPiece(E, p, st.pos, e.pos) && Came(E, G, st, e)
    decreases p
  {
    match p.a
    case Lit(run) =>
      if p.q.Rep? {
        var last := Char(run[|run| - 1]);
        var r := TestFrom(E, last, p.q, RunEnds(E, run[..|run| - 1], st), e);
        var n := TestSound(E, last, p.q.min, p.q.max, p.q.lazy, r, e);
        assert LangRun(E, run[..|run| - 1], st.pos, r.pos) && Allowed(p.q, n);
      }
    case Single(t) =>
      var n;
      if p.q.Once? { n := TestSound(E, t, 1, 1, false, st, e); }
      else { n := TestSound(E, t, p.q.min, p.q.max, p.q.lazy, st, e); }
      assert LangTest(E, t, n, st.pos, e.pos) && Allowed(p.q, n);
    case Circ =>
    case Doll =>
    case Group(cap, alts) =>
      var n;
      if p.q.Once? {
        n := 1;
        GroupSound(E, G, cap, alts, st, e);
        assert LangPower(E, alts, 0, e.pos, e.pos);
      } else {
        n := RepSound(E, G, cap, alts, p.q.min, p.q.max, p.q.lazy, st, e);
      }
      assert LangPower(E, alts, n, st.pos, e.pos) && Allowed(p.q, n);
  }

  lemma {:induction false} BranchSound(E: Env, G: set<(nat, Alts)>, b: Branch, st: St, e: St)
    requires ValidBranch(b) && st.pos <= |E.s| && BranchGroups(b) <= G
    requires e in BranchEnds(E, b, st)
    ensures LangBranch(E, b, st.pos, e.pos) && Came(E, G, st, e)
    decreases b
  {
    if b.Cons? {
      var r := BranchFrom(E, b.tl, PieceEnds(E, b.hd, st), e);
      PieceSound(E, G, b.hd, st, r);
      BranchSound(E, G, b.tl, r, e);
    }
  }

  lemma {:induction false} AltsSound(E: Env, G: set<(nat, Alts)>, alts: Alts, st: St, e: St)
    requires ValidAlts(alts) && st.pos <= |E.s| && AltsGroups(alts) <= G
    requires e in AltsEnds(E, alts, st)
    ensures LangAlts(E, alts, st.pos, e.pos) && Came(E, G, st, e)
    decreases alts, 0
  {
    if e in BranchEnds(E, alts.b, st) {
      BranchSound(E, G, alts.b, st, e);
    } else {
      AltsSound(E, G, alts.more, st, e);
    }
  }

  lemma {:induction false} GroupSound(E: Env, G: set<(nat, Alts)>, cap: nat, alts: Alts, st: St, e: St)
    requires ValidAlts(alts) && st.pos <= |E.s| && AltsGroups(alts) + {(cap, alts)} <= G
    requires e in GroupEnds(E, cap, alts, st)
    ensures LangAlts(E, alts, st.pos, e.pos) && Came(E, G, st, e)
    decreases alts, 1
  {
    var k :| 0 <= k < |GroupEnds(E, cap, alts, st)| && e == GroupEnds(E, cap, alts, st)[k];
    var r := AltsEnds(E, alts, st)[k];
    AltsSound(E, G, alts, st, r);
    assert e == Close(cap, st.pos, r);
    if cap > 0 {
      assert (cap, alts) in G;
      assert SpanOf(E, G, cap, (st.pos, r.pos));
    }
  }

  lemma {:induction false} MoreSound(E: Env, G: set<(nat, Alts)>, cap: nat, alts: Alts, lazy: bool, st: St, e: St) returns (n: nat)
    requires ValidAlts(alts) && st.pos <= |E.s| && AltsGroups(alts) + {(cap, alts)} <= G
    requires e in GroupMore(E, cap, alts, lazy, st.pos, GroupEnds(E, cap, alts, st))
    ensures n > 0 && LangPower(E, alts, n, st.pos, e.pos) && Came(E, G, st, e)
    decreases alts, 2, |E.s| - st.pos
  {
    var r := MoreFrom(E, cap, alts, lazy, st.pos, GroupEnds(E, cap, alts, st), e);
    GroupSound(E, G, cap, alts, st, r);
    if e == r {
      n := 1;
      assert LangPower(E, alts, 0, r.pos, e.pos);
    } else {
      var k := MoreSound(E, G, cap, alts, lazy, r, e);
      CameVia(E, G, st, r, e);
      PowerStep(E, alts, k, st.pos, r.pos, e.pos);
      n := k + 1;
    }
  }

  lemma {:induction false} RepSound(E: Env, G: set<(nat, Alts)>, cap: nat, alts: Alts, min: nat, max: int, lazy: bool, st: St, e: St)
    returns (n: nat)
    requires ValidAlts(alts) && st.pos <= |E.s| && AltsGroups(alts) + {(cap, alts)} <= G
    requires max >= -1 && (max >= 0 ==> min <= max) && e in GroupRep(E, cap, alts, min, max, lazy, st)
    ensures LangPower(E, alts, n, st.pos, e.pos) && min <= n && (max < 0 || n <= max) && Came(E, G, st, e)
    decreases alts, 3, if max < 0 then min else max, 0
  {
    if max == 0 || (min == 0 && e == st) {
      n := 0;
    } else {
      var once := GroupEnds(E, cap, alts, st);
      if max < 0 && min <= 1 {
        assert e in GroupMore(E, cap, alts, lazy, st.pos, once);
        n := MoreSound(E, G, cap, alts, lazy, st, e);
      } else {
        assert e in GroupRepAll(E, cap, alts, Pred(min), Dec(max), lazy, once);
        n := RepSoundAll(E, G, cap, alts, Pred(min), Dec(max), lazy, st, e);
      }
    }
  }

  lemma {:induction false} RepSoundAll(E: Env, G: set<(nat, Alts)>, cap: nat, alts: Alts, min: nat, max: int, lazy: bool, st: St, e: St)
    returns (n: nat)
    requires ValidAlts(alts) && st.pos <= |E.s| && AltsGroups(alts) + {(cap, alts)} <= G
    requires max >= -1 && (max >= 0 ==> min <= max)
    requires e in GroupRepAll(E, cap, alts, min, max, lazy, GroupEnds(E, cap, alts, st))
    ensures n > 0 && LangPower(E, alts, n, st.pos, e.pos) && min <= n - 1 && (max < 0 || n - 1 <= max) && Came(E, G, st, e)
    decreases alts, 3, if max < 0 then min else max, 1
  {
    hide LangAlts, LangPower, GroupEnds, GroupRep, GroupRepAll, AltsGroups, ValidAlts;
    var r := RepFrom(E, cap, alts, min, max, lazy, GroupEnds(E, cap, alts, st), e);
    GroupSound(E, G, cap, alts, st, r);
    var k := RepSound(E, G, cap, alts, min, max, lazy, r, e);
    CameVia(E, G, st, r, e);
    PowerStep(E, alts, k, st.pos, r.pos, e.pos);
    n := k + 1;
  }

  // ----- completeness -----

  lemma PowerSplit(E: Env, alts: Alts, n: nat, i: nat, j: nat) returns (m: nat)
    requires ValidAlts(alts) && n > 0 && LangPower(E, alts, n, i, j)
    ensures LangAlts(E, alts, i, m) && LangPower(E, alts, n - 1, m, j)
    ensures n == 1 ==> m == j
  {
    m :| LangAlts(E, alts, i, m) && LangPower(E, alts, n - 1, m, j);
  }

  lemma {:induction false} TestComplete(E: Env, t: Test, min: nat, max: int, lazy: bool, n: nat, st: St, j: nat)
    requires t.Valid() && LangTest(E, t, n, st.pos, j) && min <= n && (max < 0 || n <= max)
    ensures st.(pos := j) in TestEnds(E, t, min, max, lazy, st)
    decreases n
  {
    if n == 0 {
      assert st.(pos := j) == st;
    } else {
      TestComplete(E, t, Pred(min), Dec(max), lazy, n - 1, st.(pos := st.pos + 1), j);
    }
  }

  lemma {:induction false} PieceComplete(E: Env, p: Piece, st: St, j: nat) returns (e: St)
    requires ValidAtom(p.a) && p.q.Valid() && st.pos <= |E.s| && LangPiece(E, p, st.pos, j)
    ensures e in PieceEnds(E, p, st) && e.pos == j <= |E.s|
    decreases p
  {
    e := st.(pos := j);
    match p.a
    case Lit(run) =>
      if p.q.Rep? {
        var m := st.pos + |run| - 1;
        var last, r := Char(run[|run| - 1]), st.(pos := m);
        var n: nat :| LangTest(E, last, n, m, j) && Allowed(p.q, n);
        TestComplete(E, last, p.q.min, p.q.max, p.q.lazy, n, r, j);
        assert RunEnds(E, run[..|run| - 1], st) == [r];
      }
    case Single(t) =>
      var n: nat :| LangTest(E, t, n, st.pos, j) && Allowed(p.q, n);
      if p.q.Once? { TestComplete(E, t, 1, 1, false, n, st, j); }
      else { TestComplete(E, t, p.q.min, p.q.max, p.q.lazy, n, st, j); }
    case Circ => assert e == st;
    case Doll => assert e == st;
    case Group(cap, alts) =>
      var n: nat :| LangPower(E, alts, n, st.pos, j) && Allowed(p.q, n);
      if p.q.Once? {
        var m := PowerSplit(E, alts, n, st.pos, j);
        e := GroupComplete(E, cap, alts, st, m);
      } else {
        e := RepComplete(E, cap, alts, p.q.min, p.q.max, p.q.lazy, n, st, j);
      }
  }

  lemma {:induction false} BranchComplete(E: Env, b: Branch, st: St, j: nat) returns (e: St)
    requires ValidBranch(b) && st.pos <= |E.s| && LangBranch(E, b, st.pos, j)
    ensures e in BranchEnds(E, b, st) && e.pos == j <= |E.s|
    decreases b
  {
    e := st;
    if b.Cons? {
      var m: nat :| LangPiece(E, b.hd, st.pos, m) && LangBranch(E, b.tl, m, j);
      var r := PieceComplete(E, b.hd, st, m);
      e := BranchComplete(E, b.tl, r, j);
      BranchInto(E, b.tl, PieceEnds(E, b.hd, st), r, e);
    }
  }

  lemma {:induction false} AltsComplete(E: Env, alts: Alts, st: St, j: nat) returns (e: St)
    requires ValidAlts(alts) && st.pos <= |E.s| && LangAlts(E, alts, st.pos, j)
    ensures e in AltsEnds(E, alts, st) && e.pos == j <= |E.s|
    decreases alts, 0
  {
    if LangBranch(E, alts.b, st.pos, j) {
      e := BranchComplete(E, alts.b, st, j);
    } else {
      e := AltsComplete(E, alts.more, st, j);
    }
  }

  lemma {:induction false} GroupComplete(E: Env, cap: nat, alts: Alts, st: St, j: nat) returns (e: St)
    requires ValidAlts(alts) && st.pos <= |E.s| && LangAlts(E, alts, st.pos, j)
    ensures e in GroupEnds(E, cap, alts, st) && e.pos == j <= |E.s|
    decreases alts, 1
  {
    var r := AltsComplete(E, alts, st, j);
    var k :| 0 <= k < |AltsEnds(E, alts, st)| && r == AltsEnds(E, alts, st)[k];
    e := GroupEnds(E, cap, alts, st)[k];
  }

  /** Passes that consume nothing can be dropped, unless they are all there is. */
  lemma {:induction false} MoreComplete(E: Env, cap: nat, alts: Alts, lazy: bool, n: nat, st: St, j: nat) returns (e: St)
    requires ValidAlts(alts) && st.pos <= |E.s| && n > 0 && LangPower(E, alts, n, st.pos, j)
    ensures e in GroupMore(E, cap, alts, lazy, st.pos, GroupEnds(E, cap, alts, st)) && e.pos == j <= |E.s|
    decreases alts, 2, n
  {
    hide LangAlts, LangPower, GroupEnds, GroupMore, ValidAlts;
    var m := PowerSplit(E, alts, n, st.pos, j);
    var r := GroupComplete(E, cap, alts, st, m);
    if n == 1 {
      e := r;
    } else if m == st.pos {
      e := MoreComplete(E, cap, alts, lazy, n - 1, st, j);
      return;
    } else {
      ForwardAlts(E, alts, st.pos, m);
      e := MoreComplete(E, cap, alts, lazy, n - 1, r, j);
    }
    MoreInto(E, cap, alts, lazy, st.pos, GroupEnds(E, cap, alts, st), r, e);
  }

  lemma {:induction false} ForwardAlts(E: Env, alts: Alts, i: nat, j: nat)
    requires ValidAlts(alts) && i <= |E.s| && LangAlts(E, alts, i, j)
    ensures i <= j <= |E.s|
    decreases alts, 1
  {
    var st := St(i, map[]);
    var e := AltsComplete(E, alts, st, j);
    AltsSound(E, AltsGroups(alts), alts, st, e);
  }

  lemma {:induction false} RepComplete(E: Env, cap: nat, alts: Alts, min: nat, max: int, lazy: bool, n: nat, st: St, j: nat)
    returns (e: St)
    requires ValidAlts(alts) && st.pos <= |E.s| && max >= -1 && (max >= 0 ==> min <= max)
    requires LangPower(E, alts, n, st.pos, j) && min <= n && (max < 0 || n <= max)
    ensures e in GroupRep(E, cap, alts, min, max, lazy, st) && e.pos == j <= |E.s|
    decreases alts, 3, n
  {
    if n == 0 {
      e := st;
    } else if max < 0 && min <= 1 {
      e := MoreComplete(E, cap, alts, lazy, n, st, j);
    } else {
      var m := PowerSplit(E, alts, n, st.pos, j);
      var r := GroupComplete(E, cap, alts, st, m);
      e := RepComplete(E, cap, alts, Pred(min), Dec(max), lazy, n - 1, r, j);
      RepInto(E, cap, alts, Pred(min), Dec(max), lazy, GroupEnds(E, cap, alts, st), r, e);
    }
  }

  /** The ends that ordered backtracking lists are exactly the ends of the spans of the language. */
  lemma EndsAreLanguage(E: Env, alts: Alts, st: St, j: nat)
    requires ValidAlts(alts) && st.pos <= |E.s|
    ensures LangAlts(E, alts, st.pos, j) <==> exists e :: e in AltsEnds(E, alts, st) && e.pos == j
  {
    if LangAlts(E, alts, st.pos, j) {
      var e := AltsComplete(E, alts, st, j);
    }
    if e :| e in AltsEnds(E, alts, st) && e.pos == j {
      AltsSound(E, AltsGroups(alts), alts, st, e);
    }
  }
}
