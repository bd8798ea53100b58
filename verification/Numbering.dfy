/** Capture numbers: groups are numbered in the order of their opening brackets. */
module Numbering {
  import opened Subject
  import opened Regex
  import opened Program
  import opened Lower
  import opened Slots
  import opened Machine
  import opened FirstPass

  function PieceCount(p: Piece): nat
    decreases p
  {
    if p.a.Group? then (if p.a.cap > 0 then 1 else 0) + AltsCount(p.a.alts) else 0
  }

  function BranchCount(b: Branch): nat
    decreases b
  {
    if b.Nil? then 0 else PieceCount(b.hd) + BranchCount(b.tl)
  }

  function AltsCount(alts: Alts): nat
    decreases alts
  {
    BranchCount(alts.b) + if alts.Alt? then AltsCount(alts.more) else 0
  }

  /** The capturing groups carry the numbers from `n + 1` on, in order; `cap == 0` does not capture. */
  predicate NumberedPiece(p: Piece, n: nat)
    decreases p
  {
    p.a.Group? ==>
      (p.a.cap > 0 ==> p.a.cap == n + 1) && NumberedAlts(p.a.alts, n + if p.a.cap > 0 then 1 else 0)
  }

  predicate NumberedBranch(b: Branch, n: nat)
    decreases b
  {
    b.Cons? ==> NumberedPiece(b.hd, n) && NumberedBranch(b.tl, n + PieceCount(b.hd))
  }

  predicate NumberedAlts(alts: Alts, n: nat)
    decreases alts
  {
    NumberedBranch(alts.b, n) && (alts.Alt? ==> NumberedAlts(alts.more, n + BranchCount(alts.b)))
  }

  /** The numbers of the capturing groups, in the order of the opening brackets in the pattern. */
  function OpeningsPiece(p: Piece): seq<nat>
    decreases p
  {
    if p.a.Group? then (if p.a.cap > 0 then [p.a.cap] else []) + OpeningsAlts(p.a.alts) else []
  }

  function OpeningsBranch(b: Branch): seq<nat>
    decreases b
  {
    if b.Nil? then [] else OpeningsPiece(b.hd) + OpeningsBranch(b.tl)
  }

  function OpeningsAlts(alts: Alts): seq<nat>
    decreases alts
  {
    OpeningsBranch(alts.b) + if alts.Alt? then OpeningsAlts(alts.more) else []
  }

  /** `n + 1`, `n + 2`, ... */
  predicate CountsFrom(s: seq<nat>, n: nat) {
    forall i :: 0 <= i < |s| ==> s[i] == n + 1 + i
  }

  lemma CountsOn(a: seq<nat>, b: seq<nat>, n: nat)
    ensures CountsFrom(a + b, n) <==> CountsFrom(a, n) && CountsFrom(b, n + |a|)
  {
    var s := a + b;
    if CountsFrom(s, n) {
      forall i | 0 <= i < |a| ensures a[i] == n + 1 + i { assert s[i] == a[i]; }
      forall i | 0 <= i < |b| ensures b[i] == n + |a| + 1 + i { assert s[|a| + i] == b[i]; }
    }
  }

  lemma CountsOne(cap: nat, n: nat)
    ensures (CountsFrom([cap], n) <==> cap == n + 1) && CountsFrom([], n)
  {
    assert [cap][0] == cap;
  }

  lemma {:induction false} PieceOpenings(p: Piece, n: nat)
    ensures |OpeningsPiece(p)| == PieceCount(p) && (NumberedPiece(p, n) <==> CountsFrom(OpeningsPiece(p), n))
    decreases p
  {
    if p.a.Group? {
      var own: seq<nat> := if p.a.cap > 0 then [p.a.cap] else [];
      AltsOpenings(p.a.alts, n + |own|);
      CountsOn(own, OpeningsAlts(p.a.alts), n);
      CountsOne(p.a.cap, n);
      hide CountsFrom;
    }
  }

  lemma {:induction false} BranchOpenings(b: Branch, n: nat)
    ensures |OpeningsBranch(b)| == BranchCount(b) && (NumberedBranch(b, n) <==> CountsFrom(OpeningsBranch(b), n))
    decreases b
  {
    if b.Cons? {
      PieceOpenings(b.hd, n);
      BranchOpenings(b.tl, n + PieceCount(b.hd));
      CountsOn(OpeningsPiece(b.hd), OpeningsBranch(b.tl), n);
      hide CountsFrom;
    }
  }

  /** Groups are numbered as the compiler numbers them if and only if their opening brackets count up from 1. */
  lemma {:induction false} AltsOpenings(alts: Alts, n: nat)
    ensures |OpeningsAlts(alts)| == AltsCount(alts) && (NumberedAlts(alts, n) <==> CountsFrom(OpeningsAlts(alts), n))
    decreases alts
  {
    BranchOpenings(alts.b, n);
    if alts.Alt? {
      AltsOpenings(alts.more, n + BranchCount(alts.b));
      CountsOn(OpeningsBranch(alts.b), OpeningsAlts(alts.more), n);
    } else {
      assert OpeningsBranch(alts.b) + [] == OpeningsBranch(alts.b);
    }
  }

  /** One alternative and the rest. */
  lemma AltsStep(alts: Alts, n: nat)
    requires ValidAlts(alts) && NumberedAlts(alts, n)
    ensures ValidBranch(alts.b) && NumberedBranch(alts.b, n)
    ensures RepeatableAlts(alts) == (Repeatable(alts.b) && (alts.Alt? ==> RepeatableAlts(alts.more)))
    ensures AltsCount(alts) == BranchCount(alts.b) + if alts.Alt? then AltsCount(alts.more) else 0
    ensures AltsLength(alts) == BranchLength(alts.b) + if alts.Alt? then 3 + AltsLength(alts.more) else 0
    ensures alts.Alt? ==> ValidAlts(alts.more) && NumberedAlts(alts.more, n + BranchCount(alts.b))
  {
  }

  // ----- no group of a compiled pattern contains another of its own number -----

  ghost predicate Between(s: set<nat>, n: nat, m: nat) {
    forall i :: i in s ==> n < i <= m
  }

  lemma {:induction false} AppendCaps(a: Code, b: Code)
    ensures CodeCaps(Append(a, b)) == CodeCaps(a) + CodeCaps(b)
    ensures UnnestedCode(Append(a, b)) == (UnnestedCode(a) && UnnestedCode(b))
  {
    if a.Then? { AppendCaps(a.tl, b); }
  }

  lemma UnitCaps(n: Node)
    ensures CodeCaps(Unit(n)) == NodeCaps(n) && UnnestedCode(Unit(n)) == Unnested(n)
  {
  }

  lemma {:induction false} RepCaps(cap: nat, a: Choice, min: nat, max: int, lazy: bool)
    requires max >= -1 && UnnestedChoice(a) && cap !in ChoiceCaps(a) && 0 !in ChoiceCaps(a)
    ensures CodeCaps(LowerRep(cap, a, min, max, lazy)) <= ChoiceCaps(a) + if cap > 0 then {cap} else {}
    ensures UnnestedCode(LowerRep(cap, a, min, max, lazy))
    decreases if max < 0 then min else max
  {
    var plain, loop := Bra(cap, a, Plain), Bra(cap, a, Loop(lazy));
    assert Unnested(plain) && Unnested(loop) && NodeCaps(loop) == NodeCaps(plain);
    if max < 0 && min <= 1 {
      UnitCaps(loop);
      UnitCaps(Zero(loop, lazy));
    } else if max != 0 {
      RepCaps(cap, a, Pred(min), Dec(max), lazy);
      if min == 0 {
        UnitCaps(Zero(plain, lazy));
        WrapCaps(plain, LowerRep(cap, a, 0, Dec(max), lazy), lazy);
      }
    }
  }

  lemma ThenCaps(n: Node, c: Code)
    ensures CodeCaps(Then(n, c)) == NodeCaps(n) + CodeCaps(c) && UnnestedCode(Then(n, c)) == (Unnested(n) && UnnestedCode(c))
  {
  }

  lemma BracketCaps(c: Code)
    ensures NodeCaps(Bra(0, Only(c), Plain)) == CodeCaps(c)
    ensures Unnested(Bra(0, Only(c), Plain)) == (0 !in CodeCaps(c) && UnnestedCode(c))
  {
  }

  lemma WrapCaps(plain: Node, rest: Code, lazy: bool)
    requires Unnested(plain) && UnnestedCode(rest) && 0 !in NodeCaps(plain) + CodeCaps(rest)
    ensures var n := Zero(Bra(0, Only(Then(plain, rest)), Plain), lazy);
            CodeCaps(Unit(n)) == NodeCaps(plain) + CodeCaps(rest) && UnnestedCode(Unit(n))
  {
    hide CodeCaps, UnnestedCode;
    ThenCaps(plain, rest);
    BracketCaps(Then(plain, rest));
    UnitCaps(Zero(Bra(0, Only(Then(plain, rest)), Plain), lazy));
  }

  lemma RestCaps(t: Test, min: nat, max: int, lazy: bool)
    ensures CodeCaps(LowerRest(t, min, max, lazy)) == {} && UnnestedCode(LowerRest(t, min, max, lazy))
  {
  }

  lemma SingleCaps(t: Test, min: nat, max: int, lazy: bool)
    ensures CodeCaps(LowerSingle(t, min, max, lazy)) == {} && UnnestedCode(LowerSingle(t, min, max, lazy))
  {
    RestCaps(t, min, max, lazy);
    UnitCaps(Many(t, min, max, lazy, false));
    assert Unnested(Exactly(t)) && NodeCaps(Exactly(t)) == {};
  }

  lemma FlatCaps(p: Piece)
    requires ValidAtom(p.a) && !p.a.Group?
    requires p.q.Valid()
    ensures CodeCaps(LowerPiece(p)) == {} && UnnestedCode(LowerPiece(p))
  {
    hide LowerSingle, LowerRest;
    match p.a
    case Lit(run) =>
      UnitCaps(Chars(run));
      if p.q.Rep? {
        RestCaps(Char(run[|run| - 1]), 1, p.q.max, p.q.lazy);
        SingleCaps(Char(run[|run| - 1]), p.q.min, p.q.max, p.q.lazy);
      }
    case Single(t) =>
      UnitCaps(One(t));
      if p.q.Rep? {
        UnitCaps(Many(t, p.q.min, p.q.max, p.q.lazy, false));
        SingleCaps(t, p.q.min, p.q.max, p.q.lazy);
      }
    case Circ => UnitCaps(AtStart);
    case Doll => UnitCaps(AtEnd);
  }

  lemma {:induction false} PieceCaps(p: Piece, n: nat)
    requires ValidAtom(p.a) && p.q.Valid() && NumberedPiece(p, n)
    ensures Between(CodeCaps(LowerPiece(p)), n, n + PieceCount(p)) && UnnestedCode(LowerPiece(p))
    decreases p
  {
    if p.a.Group? {
      var cap, a := p.a.cap, LowerAlts(p.a.alts);
      AltsCaps(p.a.alts, n + if cap > 0 then 1 else 0);
      TaggedCaps(cap, a);
      GroupCaps(p, Tagged(cap, a), n);
    } else {
      FlatCaps(p);
    }
  }

  lemma TaggedCaps(cap: nat, a: Choice)
    ensures ChoiceCaps(Tagged(cap, a)) == ChoiceCaps(a) && UnnestedChoice(Tagged(cap, a)) == UnnestedChoice(a)
  {
    var t := Tagged(cap, a);
    assert CodeCaps(t.c) == CodeCaps(a.c) && UnnestedCode(t.c) == UnnestedCode(a.c);
  }

  lemma GroupCaps(p: Piece, a: Choice, n: nat)
    requires ValidAtom(p.a) && p.q.Valid() && p.a.Group? && a == Tagged(p.a.cap, LowerAlts(p.a.alts))
    requires p.a.cap > 0 ==> p.a.cap == n + 1
    requires UnnestedChoice(a) && Between(ChoiceCaps(a), n + (if p.a.cap > 0 then 1 else 0), n + PieceCount(p))
    ensures Between(CodeCaps(LowerPiece(p)), n, n + PieceCount(p)) && UnnestedCode(LowerPiece(p))
  {
    hide LowerAlts, LowerRep;
    var plain := Bra(p.a.cap, a, Plain);
    assert Unnested(plain);
    UnitCaps(plain);
    if p.q.Rep? { RepCaps(p.a.cap, a, p.q.min, p.q.max, p.q.lazy); }
  }

  lemma {:induction false} BranchCaps(b: Branch, n: nat)
    requires ValidBranch(b) && NumberedBranch(b, n)
    ensures Between(CodeCaps(LowerBranch(b)), n, n + BranchCount(b)) && UnnestedCode(LowerBranch(b))
    decreases b
  {
    if b.Cons? {
      PieceCaps(b.hd, n);
      BranchCaps(b.tl, n + PieceCount(b.hd));
      AppendCaps(LowerPiece(b.hd), LowerBranch(b.tl));
    }
  }

  lemma {:induction false} AltsCaps(alts: Alts, n: nat)
    requires ValidAlts(alts) && NumberedAlts(alts, n)
    ensures Between(ChoiceCaps(LowerAlts(alts)), n, n + AltsCount(alts)) && UnnestedChoice(LowerAlts(alts))
    decreases alts
  {
    BranchCaps(alts.b, n);
    if alts.Alt? { AltsCaps(alts.more, n + BranchCount(alts.b)); }
  }

  /** What `match` relies on: an open group never meets its own number inside itself. */
  lemma PatternClean(alts: Alts, veto: int)
    requires ValidAlts(alts) && NumberedAlts(alts, 0)
    ensures Clean(Top(Then(LowerPattern(alts), Empty), veto), AltsCount(alts))
    ensures Between(ChoiceCaps(LowerAlts(alts)), 0, AltsCount(alts))
  {
    AltsCaps(alts, 0);
    assert Unnested(LowerPattern(alts));
  }
}
