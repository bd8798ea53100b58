/**
 * When pcre_compile records what: the first byte exactly if every alternative leads with it, the
 * required byte whenever every alternative comes down to it last, the flags exactly if every
 * alternative has a leading item of the right kind.
 */
module Leads {
  import opened Wrappers
  import opened Bytes
  import opened Subject
  import opened Regex
  import opened Program
  import opened Lower
  import opened Hints
  import opened Anchor
  import opened Pattern
  import opened Stuck

  // ----- the first byte -----

  /** The branch must take the literal byte `c` before anything else. */
  predicate LeadsBranch(o: Options, b: Branch, c: byte)
    requires ValidBranch(b)
    decreases b
  {
    b.Cons? &&
    assert ValidAtom(b.hd.a);
    match b.hd.a
    case Lit(run) => run[0] == c && (|run| > 1 || b.hd.q.Once? || b.hd.q.min > 0)
    case Single(_) => false
    case Circ => !o.multiline && LeadsBranch(o, b.tl, c)
    case Doll => LeadsBranch(o, b.tl, c)
    case Group(_, alts) => (b.hd.q.Once? || b.hd.q.min > 0) && LeadsAlts(o, alts, c)
  }

  predicate LeadsAlts(o: Options, alts: Alts, c: byte)
    requires ValidAlts(alts)
    decreases alts
  {
    LeadsBranch(o, alts.b, c) && (alts.Alt? ==> LeadsAlts(o, alts.more, c))
  }

  /** Once there is a first byte, or that there is none, that stays. */
  lemma {:induction false} FirstStays(o: Options, h: Hints, b: Branch)
    requires ValidBranch(b) && Repeatable(b) && !h.first.Unset?
    ensures BranchHints(o, h, b).first == h.first
    decreases b
  {
    if b.Cons? {
      AtomIs(o, h, b.hd.a);
      FirstStays(o, PieceHints(o, h, b.hd), b.tl);
    }
  }

  /** The hint for the byte `c`, if a first byte is known. */
  predicate IsFirst(o: Options, f: Hint, c: byte) {
    f == Known(c, o.caseless, false)
  }

  lemma {:induction false} BranchFirst(o: Options, h: Hints, b: Branch, c: byte)
    requires ValidBranch(b) && Repeatable(b) && h.first.Unset?
    ensures var f := BranchHints(o, h, b).first;
            (IsFirst(o, f, c) <==> LeadsBranch(o, b, c)) && (f.Known? ==> IsFirst(o, f, f.c))
    decreases b, 1
  {
    if b.Cons? {
      PieceFirst(o, h, b.hd, c);
      var h1 := PieceHints(o, h, b.hd);
      if h1.first.Unset? {
        BranchFirst(o, h1, b.tl, c);
      } else {
        FirstStays(o, h1, b.tl);
      }
    }
  }

  lemma {:induction false} PieceFirst(o: Options, h: Hints, p: Piece, c: byte)
    requires ValidAtom(p.a) && p.q.Valid() && h.first.Unset? && ((p.a.Circ? || p.a.Doll?) ==> p.q.Once?)
    requires p.a.Group? ==> RepeatableAlts(p.a.alts)
    ensures var f := PieceHints(o, h, p).first;
            && (f.Known? ==> IsFirst(o, f, f.c))
            && (f.Unset? <==> p.a.Doll? || (p.a.Circ? && !o.multiline))
            && (p.a.Lit? ==> (IsFirst(o, f, c) <==> p.a.run[0] == c && (|p.a.run| > 1 || p.q.Once? || p.q.min > 0)))
            && (p.a.Group? ==> (IsFirst(o, f, c) <==> (p.q.Once? || p.q.min > 0) && LeadsAlts(o, p.a.alts, c)))
            && (p.a.Single? || p.a.Circ? || p.a.Doll? ==> !f.Known?)
    decreases p, 0
  {
    AtomIs(o, h, p.a);
    if p.a.Group? { AltsFirst(o, p.a.alts, h.vary, c); }
  }

  /** The first byte of a bracket is known exactly if all its alternatives lead with it. */
  lemma {:induction false} AltsFirst(o: Options, alts: Alts, vary: bool, c: byte)
    requires ValidAlts(alts) && RepeatableAlts(alts)
    ensures var f := AltsHints(o, alts, vary).first;
            (IsFirst(o, f, c) <==> LeadsAlts(o, alts, c)) && (f.Known? ==> IsFirst(o, f, f.c))
    decreases alts, 3
  {
    BranchFirst(o, Fresh(vary), alts.b, c);
    if alts.Alt? { MoreFirst(o, alts.more, FirstFound(o, alts.b, vary), c); }
  }

  lemma {:induction false} MoreFirst(o: Options, alts: Alts, f: Found, c: byte)
    requires ValidAlts(alts) && RepeatableAlts(alts) && (f.first.Known? ==> IsFirst(o, f.first, f.first.c))
    ensures var g := MoreHints(o, alts, f).first;
            (IsFirst(o, g, c) <==> IsFirst(o, f.first, c) && LeadsAlts(o, alts, c)) && (g.Known? ==> IsFirst(o, g, g.c))
    decreases alts, 2
  {
    var h := BranchHints(o, Fresh(f.vary), alts.b);
    BranchFirst(o, Fresh(f.vary), alts.b, c);
    if alts.Alt? { MoreFirst(o, alts.more, Merge(f, h), c); }
  }

  // ----- where the first byte is missing -----

  lemma {:induction false} AppendStuck(E: Env, a: Code, b: Code, pos: nat)
    requires ValidCode(a) && ValidCode(b) && StuckCode(E, a, pos)
    ensures ValidCode(Append(a, b)) && StuckCode(E, Append(a, b), pos)
  {
    AppendValid(a, b);
    if StuckCode(E, a.tl, pos) {
      AppendStuck(E, a.tl, b, pos);
    }
    AppendValid(a.tl, b);
  }

  /** A literal run lets nothing pass where its first byte is missing. */
  lemma LitStuck(E: Env, run: seq<byte>, q: Quant, pos: nat)
    requires 1 <= |run| <= MAXLIT && q.Valid() && (|run| > 1 || q.Once? || q.min > 0)
    requires !(pos < |E.s| && SameByte(E, run[0], E.s[pos]))
    ensures ValidCode(LowerLit(run, q)) && StuckCode(E, LowerLit(run, q), pos)
  {
    LitValid(run, q);
    RunMisses(E, run, pos);
    if |run| > 1 { RunMisses(E, run[..|run| - 1], pos); }
  }

  lemma RunMisses(E: Env, run: seq<byte>, pos: nat)
    requires |run| > 0 && !(pos < |E.s| && SameByte(E, run[0], E.s[pos]))
    ensures !RunAt(E, run, pos)
  {
    if pos + |run| <= |E.s| { assert !SameByte(E, run[0], E.s[pos + 0]); }
  }

  lemma TaggedStuck(E: Env, cap: nat, a: Choice, pos: nat)
    requires ValidChoice(a) && ValidChoice(Tagged(cap, a)) && StuckChoice(E, a, pos)
    ensures StuckChoice(E, Tagged(cap, a), pos)
  {
  }

  lemma GroupStuck(E: Env, p: Piece, pos: nat)
    requires ValidAtom(p.a) && p.q.Valid() && p.a.Group? && (p.q.Once? || p.q.min > 0)
    requires ValidChoice(LowerAlts(p.a.alts)) && StuckChoice(E, LowerAlts(p.a.alts), pos)
    ensures ValidCode(LowerPiece(p)) && StuckCode(E, LowerPiece(p), pos)
  {
    hide LowerAlts, StuckChoice;
    PieceValid(p);
    var cap, a := p.a.cap, Tagged(p.a.cap, LowerAlts(p.a.alts));
    assert ValidChoice(a);
    TaggedStuck(E, cap, LowerAlts(p.a.alts), pos);
    if p.q.Rep? { assert LowerRep(cap, a, p.q.min, p.q.max, p.q.lazy).hd.alts == a; }
  }

  lemma {:induction false} BranchStuck(E: Env, b: Branch, c: byte, pos: nat)
    requires ValidBranch(b) && LeadsBranch(E.opt, b, c) && !(pos < |E.s| && SameByte(E, c, E.s[pos]))
    ensures ValidCode(LowerBranch(b)) && StuckCode(E, LowerBranch(b), pos)
    decreases b
  {
    var p, tl := b.hd, LowerBranch(b.tl);
    BranchValid(b.tl);
    PieceValid(p);
    match p.a
    case Lit(run) =>
      LitStuck(E, run, p.q, pos);
      AppendStuck(E, LowerPiece(p), tl, pos);
    case Group(_, alts) =>
      AltsStuck(E, alts, c, pos);
      GroupStuck(E, p, pos);
      AppendStuck(E, LowerPiece(p), tl, pos);
    case Circ =>
      BranchStuck(E, b.tl, c, pos);
      assert LowerBranch(b) == Append(Unit(AtStart), tl) == Then(AtStart, tl);
    case Doll =>
      BranchStuck(E, b.tl, c, pos);
      assert LowerBranch(b) == Append(Unit(AtEnd), tl) == Then(AtEnd, tl);
  }

  /** A pattern that leads with `c` consumes nothing and closes no group where `c` is not. */
  lemma {:induction false} AltsStuck(E: Env, alts: Alts, c: byte, pos: nat)
    requires ValidAlts(alts) && LeadsAlts(E.opt, alts, c) && !(pos < |E.s| && SameByte(E, c, E.s[pos]))
    ensures ValidChoice(LowerAlts(alts)) && StuckChoice(E, LowerAlts(alts), pos)
    decreases alts
  {
    BranchStuck(E, alts.b, c, pos);
    if alts.Alt? { AltsStuck(E, alts.more, c, pos); }
  }

  // ----- the required byte -----

  /** Adds no literal byte that must occur. */
  predicate Weak(p: Piece) {
    (!p.a.Lit? && !p.a.Group?) || (p.q.Rep? && p.q.min == 0 && (p.a.Lit? ==> |p.a.run| == 1))
  }

  predicate WeakBranch(b: Branch)
    decreases b
  {
    b.Cons? ==> Weak(b.hd) && WeakBranch(b.tl)
  }

  /** The last literal byte that must occur is `c`. */
  predicate EndsPiece(p: Piece, c: byte)
    requires ValidAtom(p.a)
    decreases p
  {
    match p.a
    case Lit(run) =>
      if p.q.Rep? && p.q.min == 0 then |run| > 1 && run[|run| - 2] == c else run[|run| - 1] == c
    case Group(_, alts) => (p.q.Once? || p.q.min > 0) && EndsAlts(alts, c)
    case _ => false
  }

  predicate EndsBranch(b: Branch, c: byte)
    requires ValidBranch(b)
    decreases b
  {
    b.Cons? && (EndsBranch(b.tl, c) || (WeakBranch(b.tl) && EndsPiece(b.hd, c)))
  }

  predicate EndsAlts(alts: Alts, c: byte)
    requires ValidAlts(alts)
    decreases alts
  {
    EndsBranch(alts.b, c) && (alts.Alt? ==> EndsAlts(alts.more, c))
  }

  /** `c` is required, or nothing is required beside the first byte, which is `c`. */
  predicate Has(o: Options, first: Hint, req: Hint, c: byte) {
    if req.Known? then req.c == c && req.nocase == o.caseless else first.Known? && first.c == c && first.nocase == o.caseless
  }

  predicate HasIn(o: Options, h: Hints, c: byte) {
    Has(o, h.first, h.req, c) && !h.first.Unset?
  }

  /** As long as there is no first byte, there is no required one. */
  predicate Begun(o: Options, h: Hints) {
    (h.first.Unset? ==> !h.req.Known?) && AllCased(o, h)
  }

  lemma {:induction false} BranchBegun(o: Options, h: Hints, p: Piece)
    requires ValidAtom(p.a) && p.q.Valid() && Begun(o, h) && (p.a.Circ? || p.a.Doll? ==> p.q.Once?)
    ensures Begun(o, PieceHints(o, h, p))
  {
    AtomIs(o, h, p.a);
    AtomCased(o, h, p.a);
  }

  lemma {:induction false} WeakKeeps(o: Options, h: Hints, b: Branch, c: byte)
    requires ValidBranch(b) && Repeatable(b) && WeakBranch(b) && HasIn(o, h, c)
    ensures HasIn(o, BranchHints(o, h, b), c)
    decreases b
  {
    if b.Cons? {
      AtomIs(o, h, b.hd.a);
      WeakKeeps(o, PieceHints(o, h, b.hd), b.tl, c);
    }
  }

  lemma {:induction false} PieceHas(o: Options, h: Hints, p: Piece, c: byte)
    requires ValidAtom(p.a) && p.q.Valid() && EndsPiece(p, c) && Begun(o, h)
    requires p.a.Group? ==> RepeatableAlts(p.a.alts)
    ensures HasIn(o, PieceHints(o, h, p), c)
    decreases p, 0
  {
    AtomIs(o, h, p.a);
    if p.a.Group? { AltsHave(o, p.a.alts, h.vary, c); }
  }

  lemma {:induction false} BranchHas(o: Options, h: Hints, b: Branch, c: byte)
    requires ValidBranch(b) && Repeatable(b) && EndsBranch(b, c) && Begun(o, h)
    ensures HasIn(o, BranchHints(o, h, b), c)
    decreases b, 1
  {
    var h1 := PieceHints(o, h, b.hd);
    BranchBegun(o, h, b.hd);
    if EndsBranch(b.tl, c) {
      BranchHas(o, h1, b.tl, c);
    } else {
      PieceHas(o, h, b.hd, c);
      WeakKeeps(o, h1, b.tl, c);
    }
  }

  /** Where every alternative comes down to `c`, it is recorded. */
  lemma {:induction false} AltsHave(o: Options, alts: Alts, vary: bool, c: byte)
    requires ValidAlts(alts) && RepeatableAlts(alts) && EndsAlts(alts, c)
    ensures var f := AltsHints(o, alts, vary); Has(o, f.first, f.req, c)
    decreases alts, 3
  {
    BranchHas(o, Fresh(vary), alts.b, c);
    if alts.Alt? { MoreHave(o, alts.more, FirstFound(o, alts.b, vary), c); }
  }

  lemma {:induction false} MoreHave(o: Options, alts: Alts, f: Found, c: byte)
    requires ValidAlts(alts) && RepeatableAlts(alts) && EndsAlts(alts, c) && Has(o, f.first, f.req, c)
    ensures var g := MoreHints(o, alts, f); Has(o, g.first, g.req, c)
    decreases alts, 2
  {
    var h := BranchHints(o, Fresh(f.vary), alts.b);
    BranchHas(o, Fresh(f.vary), alts.b, c);
    MergeHas(o, f, h, c);
    if alts.Alt? { MoreHave(o, alts.more, Merge(f, h), c); }
  }

  lemma MergeHas(o: Options, f: Found, h: Hints, c: byte)
    requires Has(o, f.first, f.req, c) && Has(o, h.first, h.req, c)
    ensures var g := Merge(f, h); Has(o, g.first, g.req, c)
  {
  }

  // ----- what varies -----

  /** Some item can occur in different numbers. */
  predicate VariesPiece(p: Piece)
    decreases p
  {
    (p.q.Rep? && p.q.min != p.q.max) || (p.a.Group? && VariesAlts(p.a.alts))
  }

  predicate VariesBranch(b: Branch)
    decreases b
  {
    b.Cons? && (VariesPiece(b.hd) || VariesBranch(b.tl))
  }

  predicate VariesAlts(alts: Alts)
    decreases alts
  {
    VariesBranch(alts.b) || (alts.Alt? && VariesAlts(alts.more))
  }

  /** Only behind such an item do the hints say so. */
  predicate Tells(h: Hint, varies: bool) {
    h.Known? && h.vary ==> varies
  }

  predicate AllTell(h: Hints) {
    Tells(h.first, h.vary) && Tells(h.req, h.vary) && Tells(h.zeroFirst, h.vary) && Tells(h.zeroReq, h.vary)
  }

  lemma {:induction false} BranchVaries(o: Options, h: Hints, b: Branch)
    requires ValidBranch(b) && AllTell(h)
    ensures var g := BranchHints(o, h, b); AllTell(g) && (g.vary <==> h.vary || VariesBranch(b))
    decreases b, 1
  {
    if b.Cons? {
      AtomIs(o, h, b.hd.a);
      if b.hd.a.Group? { AltsVary(o, b.hd.a.alts, h.vary); }
      BranchVaries(o, PieceHints(o, h, b.hd), b.tl);
    }
  }

  /** The flag is passed on exactly if it was set before or some item varies. */
  lemma {:induction false} AltsVary(o: Options, alts: Alts, vary: bool)
    requires ValidAlts(alts)
    ensures var f := AltsHints(o, alts, vary);
            (f.vary <==> vary || VariesAlts(alts)) && Tells(f.first, f.vary) && Tells(f.req, f.vary)
    decreases alts, 3
  {
    BranchVaries(o, Fresh(vary), alts.b);
    if alts.Alt? { MoreVary(o, alts.more, FirstFound(o, alts.b, vary)); }
  }

  lemma {:induction false} MoreVary(o: Options, alts: Alts, f: Found)
    requires ValidAlts(alts) && Tells(f.first, f.vary) && Tells(f.req, f.vary)
    ensures var g := MoreHints(o, alts, f);
            (g.vary <==> f.vary || VariesAlts(alts)) && Tells(g.first, g.vary) && Tells(g.req, g.vary)
    decreases alts, 2
  {
    BranchVaries(o, Fresh(f.vary), alts.b);
    if alts.Alt? { MoreVary(o, alts.more, Merge(f, BranchHints(o, Fresh(f.vary), alts.b))); }
  }

  // ----- anchoring -----

  /** The items that can come first; None stands for an alternative without any. */
  function LeadingBranch(b: Branch): set<Option<Piece>>
    requires ValidBranch(b)
    decreases b
  {
    if b.Nil? then {None} else
    assert ValidAtom(b.hd.a);
    if Absent(b.hd) then LeadingBranch(b.tl)
    else if b.hd.a.Group? && (b.hd.q.Once? || b.hd.q.min > 0) then LeadingAlts(b.hd.a.alts)
    else {Some(b.hd)}
  }

  function LeadingAlts(alts: Alts): set<Option<Piece>>
    requires ValidAlts(alts)
    decreases alts
  {
    LeadingBranch(alts.b) + if alts.Alt? then LeadingAlts(alts.more) else {}
  }

  /** `^`, or `.*` in either greediness; to anchor, it must not match behind or stop at a newline. */
  predicate Ties(o: Options, anchored: bool, x: Option<Piece>) {
    x.Some? &&
    match x.value.a
    case Circ => !(anchored && o.multiline)
    case Single(t) => t == Type(Any) && x.value.q.Rep? && x.value.q.min == 0 && x.value.q.max == -1 && (o.dotall || !anchored)
    case _ => false
  }

  lemma {:induction false} BranchTied(o: Options, anchored: bool, b: Branch)
    requires ValidBranch(b)
    ensures BeginsBranch(o, anchored, b) <==> forall x :: x in LeadingBranch(b) ==> Ties(o, anchored, x)
    decreases b
  {
    if b.Nil? {
      assert None in LeadingBranch(b);
    } else if Absent(b.hd) {
      BranchTied(o, anchored, b.tl);
    } else if b.hd.a.Group? && (b.hd.q.Once? || b.hd.q.min > 0) {
      AltsTied(o, anchored, b.hd.a.alts);
    } else {
      assert LeadingBranch(b) == {Some(b.hd)};
      assert BeginsBranch(o, anchored, b) == Ties(o, anchored, Some(b.hd));
    }
  }

  /** The tests come out right if and only if all leading items are of the right kind. */
  lemma {:induction false} AltsTied(o: Options, anchored: bool, alts: Alts)
    requires ValidAlts(alts)
    ensures BeginsAlts(o, anchored, alts) <==> forall x :: x in LeadingAlts(alts) ==> Ties(o, anchored, x)
    decreases alts
  {
    BranchTied(o, anchored, alts.b);
    if alts.Alt? { AltsTied(o, anchored, alts.more); }
  }

  // ----- what pcre_compile records -----

  /** A byte as it is recorded: caseless only where that makes a difference. */
  function Recorded(re: Pcre, c: byte): FixedByte {
    FixedByte(c, re.opt.caseless && re.tab.fcc[c] != c)
  }

  /** Everything but the code follows from the leading and the last items of the alternatives. */
  lemma WhatIsRecorded(re: Pcre, alts: Alts, forced: bool, c: byte)
    requires Describes(re, alts, forced)
    ensures re.anchored <==> forced || forall x :: x in LeadingAlts(alts) ==> Ties(re.opt, true, x)
    ensures !re.anchored ==> (re.first == Some(Recorded(re, c)) <==> LeadsAlts(re.opt, alts, c))
    ensures !re.anchored && re.first.Some? ==> re.first == Some(Recorded(re, re.first.value.c))
    ensures !re.anchored ==> (re.startline <==> re.first.None? && forall x :: x in LeadingAlts(alts) ==> Ties(re.opt, false, x))
    ensures re.anchored ==> re.first.None? && !re.startline && (re.req.Some? ==> VariesAlts(alts))
    ensures !re.anchored && EndsAlts(alts, c) ==>
              re.req == Some(Recorded(re, c)) || (re.req.None? && re.first == Some(Recorded(re, c)))
  {
    hide LeadsAlts, EndsAlts, LeadingAlts, Ties, AltsHints, VariesAlts;
    AltsVary(re.opt, alts, false);
    AltsTied(re.opt, true, alts);
    AltsTied(re.opt, false, alts);
    AltsFirst(re.opt, alts, false, c);
    AltsCased(re.opt, alts, false);
    if EndsAlts(alts, c) { AltsHave(re.opt, alts, false, c); }
  }
}
