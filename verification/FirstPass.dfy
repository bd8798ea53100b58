/** The length that the first pass over a pattern allows for, against the bytes the second pass emits. */
module FirstPass {
  import opened Bytes
  import opened Opcodes
  import opened Subject
  import opened Regex
  import opened Program
  import opened Lower

  /** The repeats that cost one opcode: ?, * and +, in any spelling. */
  predicate OneOpcode(q: Quant)
    requires q.Rep?
  {
    (q.min == 0 && (q.max == 1 || q.max == -1)) || (q.min == 1 && q.max == -1)
  }

  /** What a quantifier adds after a single character, type or metacharacter. */
  function ByteQuantLength(q: Quant): int {
    if q.Once? then 0
    else if OneOpcode(q) then 1
    else (if q.min == 1 then 0 else if q.min > 0 then 3 else -1) + if q.max > 0 then 4 else 2
  }

  function ClassQuantLength(q: Quant): nat {
    if q.Once? then 0 else if OneOpcode(q) then 1 else 5
  }

  /** A bracket of `dup` bytes with its quantifier, copies and nesting brackets included. */
  function GroupQuantLength(dup: nat, q: Quant): int {
    if q.Once? then dup
    else if q.min == 0 then dup + 1 + if q.max > 0 then (q.max - 1) * (dup + 7) else 0
    else dup + (q.min - 1) * dup + if q.max > q.min then (q.max - q.min) * (dup + 7) - 6 else 0
  }

  function PieceLength(p: Piece): int
    decreases p
  {
    match p.a
    case Lit(run) => 2 + |run| + ByteQuantLength(p.q)
    case Single(t) =>
      if t.Class? then 33 + ClassQuantLength(p.q)
      else (if t.NotChar? then 3 else 1) + ByteQuantLength(p.q)
    case Circ => 1 + ByteQuantLength(p.q)
    case Doll => 1 + ByteQuantLength(p.q)
    case Group(cap, alts) =>
      var dup := 3 + (if cap > EXTRACT_BASIC_MAX then 3 else 0) + AltsLength(alts) + 3;
      GroupQuantLength(if dup < 0 then 0 else dup, p.q)
  }

  function BranchLength(b: Branch): int
    decreases b
  {
    if b.Nil? then 0 else PieceLength(b.hd) + BranchLength(b.tl)
  }

  function AltsLength(alts: Alts): int
    decreases alts
  {
    BranchLength(alts.b) + if alts.Alt? then 3 + AltsLength(alts.more) else 0
  }

  /** The initial bracket, the pattern, the final ket and OP_END. */
  function PatternLength(alts: Alts): int {
    3 + AltsLength(alts) + 4
  }

  // ----- sizes of emitted code -----

  lemma LengthsPositive(b: Branch)
    requires ValidBranch(b)
    ensures BranchLength(b) >= 0 && (b.Cons? ==> PieceLength(b.hd) >= 0 && BranchLength(b.tl) >= 0)
  {
    BranchFits(b);
    if b.Cons? {
      PieceFits(b.hd);
      BranchFits(b.tl);
    }
  }

  lemma BraSize(cap: nat, a: Choice, k: Ket)
    requires ValidNode(Bra(cap, a, k))
    ensures |EncNode(Bra(cap, a, k))| == |EncChoice(BraByte(cap), a)| + 3
  {
  }

  /** Bytes of a repeated group whose bracket takes `g` bytes. */
  function RepSize(g: nat, min: nat, max: int): nat
    requires max >= -1
    decreases if max < 0 then min else max
  {
    if max == 0 then 0
    else if max < 0 && min <= 1 then g + 1 - min
    else if min > 0 then g + RepSize(g, min - 1, Dec(max))
    else if max == 1 then g + 1
    else g + 7 + RepSize(g, 0, max - 1)
  }

  lemma UnitSize(n: Node)
    requires ValidNode(n)
    ensures ValidCode(Unit(n)) && |EncCode(Unit(n))| == |EncNode(n)|
  {
  }

  lemma WrapSize(c: Code)
    requires ValidCode(c)
    ensures ValidNode(Bra(0, Only(c), Plain)) && |EncNode(Bra(0, Only(c), Plain))| == 6 + |EncCode(c)|
  {
    assert ValidChoice(Only(c)) && EncMore(Only(c)) == [];
    BraSize(0, Only(c), Plain);
  }

  lemma {:induction false} RepSizeIs(cap: nat, a: Choice, min: nat, max: int, lazy: bool)
    requires max >= -1 && cap < 0x1_0000 && ValidChoice(a) && Labelled(cap, a)
    ensures ValidCode(LowerRep(cap, a, min, max, lazy))
    ensures |EncCode(LowerRep(cap, a, min, max, lazy))| == RepSize(|EncNode(Bra(cap, a, Plain))|, min, max)
    decreases if max < 0 then min else max
  {
    RepValid(cap, a, min, max, lazy);
    var plain, loop := Bra(cap, a, Plain), Bra(cap, a, Loop(lazy));
    assert ValidNode(plain) && ValidNode(loop);
    hide ValidChoice, Labelled, EncNode, EncCode, ValidNode, ValidCode;
    BraSize(cap, a, Plain);
    BraSize(cap, a, Loop(lazy));
    if max == 0 {
      EmptySize();
    } else if max < 0 && min <= 1 {
      UnitSize(loop);
      if min == 0 { SkipSize(loop, lazy); }
    } else {
      RepSizeIs(cap, a, Pred(min), Dec(max), lazy);
      var rest := LowerRep(cap, a, Pred(min), Dec(max), lazy);
      ConsSize(plain, rest);
      if min == 0 {
        WrapSize(Then(plain, rest));
        SkipSize(if max == 1 then plain else Bra(0, Only(Then(plain, rest)), Plain), lazy);
      }
    }
  }

  lemma EmptySize()
    ensures ValidCode(Empty) && EncCode(Empty) == []
  {
  }

  lemma ConsSize(n: Node, c: Code)
    requires ValidNode(n) && ValidCode(c)
    ensures ValidCode(Then(n, c)) && |EncCode(Then(n, c))| == |EncNode(n)| + |EncCode(c)|
  {
  }

  lemma SkipSize(g: Node, lazy: bool)
    requires g.Bra? && ValidNode(g)
    ensures ValidCode(Unit(Zero(g, lazy))) && |EncCode(Unit(Zero(g, lazy)))| == 1 + |EncNode(g)|
  {
    var z := Zero(g, lazy);
    assert ValidNode(z) && |EncNode(z)| == 1 + |EncNode(g)|;
    hide EncNode, ValidNode;
    UnitSize(z);
  }

  lemma {:induction false} RepSizeMonotone(g: nat, d: nat, min: nat, max: int)
    requires max >= -1 && g <= d
    ensures RepSize(g, min, max) <= RepSize(d, min, max)
    decreases if max < 0 then min else max
  {
    if max != 0 && !(max < 0 && min <= 1) {
      RepSizeMonotone(g, d, Pred(min), Dec(max));
    }
  }

  lemma {:induction false} OptionalSize(d: nat, n: nat)
    ensures RepSize(d, 0, n) == if n == 0 then 0 else n * (d + 7) - 6
    decreases n
  {
    if n > 1 {
      OptionalSize(d, n - 1);
      assert (n - 1) * (d + 7) + (d + 7) == n * (d + 7);
    }
  }

  lemma Distribute(n: int, d: int)
    ensures n * d == (n - 1) * d + d
  {
  }

  lemma {:induction false} MandatorySize(d: nat, min: nat, max: int)
    requires min >= 1 && max >= -1 && (max >= 0 ==> min <= max)
    ensures RepSize(d, min, max) == min * d + if max < 0 then 0 else RepSize(d, 0, max - min)
    decreases min
  {
    Distribute(min, d);
    if min > 1 {
      MandatorySize(d, min - 1, Dec(max));
    }
  }

  /** The first pass counts repeated groups exactly, apart from {0} and {0,0}. */
  lemma RepSizeClosed(d: nat, q: Quant)
    requires q.Rep? && q.Valid()
    ensures RepSize(d, q.min, q.max) <= GroupQuantLength(d, q)
    ensures q.max != 0 ==> RepSize(d, q.min, q.max) == GroupQuantLength(d, q)
  {
    if q.min == 0 {
      if q.max > 0 {
        OptionalSize(d, q.max);
        Distribute(q.max, d + 7);
      }
    } else {
      MandatorySize(d, q.min, q.max);
      Distribute(q.min, d);
      if q.max > q.min { OptionalSize(d, q.max - q.min); }
    }
  }

  /** What the first pass counts for a single character, negated character or type. */
  function SingleLength(t: Test): nat {
    if t.Type? then 1 else 3
  }

  lemma SingleSize(t: Test, q: Quant)
    requires t.Valid() && !t.Class? && q.Rep? && q.Valid()
    ensures ValidCode(LowerSingle(t, q.min, q.max, q.lazy)) && ValidCode(LowerRest(t, q.min, q.max, q.lazy))
    ensures |EncCode(LowerRest(t, q.min, q.max, q.lazy))| == if q.max < 0 then 2 else if q.max == q.min then 0 else 4
    ensures |EncCode(LowerSingle(t, q.min, q.max, q.lazy))| <= SingleLength(t) + ByteQuantLength(q)
  {
    EmptySize();
    var rest := LowerRest(t, q.min, q.max, q.lazy);
    if q.max < 0 {
      ManySize(t, 0, -1, q.lazy, false);
    } else if q.max > q.min {
      ManySize(t, 0, q.max - q.min, q.lazy, true);
    }
    if q.max != 0 {
      if q.min == 0 || (q.min == 1 && q.max < 0) {
        ManySize(t, q.min, q.max, q.lazy, false);
      } else if q.min == 1 {
        ExactlySize(t);
        hide EncNode, EncCode;
        ConsSize(Exactly(t), rest);
      } else {
        ManySize(t, q.min, q.min, false, false);
        hide EncNode, EncCode;
        ConsSize(Many(t, q.min, q.min, false, false), rest);
      }
    }
  }

  lemma ManySize(t: Test, min: nat, max: int, lazy: bool, counted: bool)
    requires t.Valid() && !t.Class? && ByteBounds(min, max) && (counted ==> min == 0 && max > 0) && -1 <= max < 0x1_0000
    ensures var n := Many(t, min, max, lazy, counted);
            && ValidNode(n) && ValidCode(Unit(n)) && |EncCode(Unit(n))| == |EncNode(n)|
            && |EncNode(n)| == if max == -1 || (max == 1 && !counted) then 2 else 4
  {
    var n := Many(t, min, max, lazy, counted);
    assert ValidNode(n);
    assert |EncNode(n)| == if max == -1 || (max == 1 && !counted) then 2 else 4;
    hide EncNode, ValidNode;
    UnitSize(n);
  }

  lemma ExactlySize(t: Test)
    requires t.Valid() && !t.Class?
    ensures ValidNode(Exactly(t)) && |EncNode(Exactly(t))| == SingleLength(t) - if t.NotChar? then 1 else 0
  {
  }

  lemma {:induction false} PieceFits(p: Piece)
    requires ValidAtom(p.a) && p.q.Valid()
    ensures ValidCode(LowerPiece(p)) && |EncCode(LowerPiece(p))| <= PieceLength(p)
    decreases p
  {
    PieceValid(p);
    match p.a
    case Lit(run) => LitFits(run, p.q);
    case Single(t) => TestFits(t, p.q);
    case Circ => UnitSize(AtStart); QuantLengthBound(p.q);
    case Doll => UnitSize(AtEnd); QuantLengthBound(p.q);
    case Group(cap, alts) => GroupFits(p);
  }

  lemma QuantLengthBound(q: Quant)
    requires q.Valid()
    ensures ByteQuantLength(q) >= 0
  {
  }

  lemma LitFits(run: seq<byte>, q: Quant)
    requires 1 <= |run| <= MAXLIT && q.Valid()
    ensures ValidCode(LowerLit(run, q)) && |EncCode(LowerLit(run, q))| <= 2 + |run| + ByteQuantLength(q)
  {
    LitValid(run, q);
    var n := |run| - 1;
    UnitSize(Chars(run));
    if q.Rep? {
      SingleSize(Char(run[n]), q);
      assert |EncNode(Exactly(Char(run[n])))| == 3;
      if n > 0 { assert |EncNode(Chars(run[..n]))| == 2 + n; }
      assert |EncNode(Chars(run))| == 3 + n;
    }
  }

  lemma TestFits(t: Test, q: Quant)
    requires t.Valid() && !t.Char? && q.Valid()
    ensures ValidCode(LowerTest(t, q))
    ensures |EncCode(LowerTest(t, q))| <= if t.Class? then 33 + ClassQuantLength(q) else (if t.NotChar? then 3 else 1) + ByteQuantLength(q)
  {
    TestValid(t, q);
    UnitSize(One(t));
    assert EncCode(Empty) == [];
    if q.Rep? {
      if t.Class? {
        if q.max != 0 { UnitSize(Many(t, q.min, q.max, q.lazy, false)); }
      } else {
        SingleSize(t, q);
      }
    }
  }

  lemma {:induction false} GroupFits(p: Piece)
    requires ValidAtom(p.a) && p.q.Valid() && p.a.Group?
    ensures ValidCode(LowerPiece(p)) && |EncCode(LowerPiece(p))| <= PieceLength(p)
    decreases p, 0
  {
    hide LowerAlts, LowerRep, EncNode, EncChoice, RepSize;
    PieceValid(p);
    var cap, alts := p.a.cap, p.a.alts;
    AltsValid(alts);
    AltsFit(alts);
    var a := Tagged(cap, LowerAlts(alts));
    TaggedSize(cap, LowerAlts(alts));
    var plain := Bra(cap, a, Plain);
    BraSize(cap, a, Plain);
    var g, dup := |EncNode(plain)|, 3 + (if cap > EXTRACT_BASIC_MAX then 3 else 0) + AltsLength(alts) + 3;
    assert g <= dup;
    if p.q.Once? {
      UnitSize(plain);
    } else {
      RepSizeIs(cap, a, p.q.min, p.q.max, p.q.lazy);
      RepSizeMonotone(g, dup, p.q.min, p.q.max);
      RepSizeClosed(dup, p.q);
    }
  }

  lemma TaggedSize(cap: nat, a: Choice)
    requires ValidChoice(a) && cap < 0x1_0000
    ensures ValidChoice(Tagged(cap, a)) && Labelled(cap, Tagged(cap, a))
    ensures |EncChoice(BraByte(cap), Tagged(cap, a))| == |EncChoice(BraByte(cap), a)| + if cap > EXTRACT_BASIC_MAX then 3 else 0
  {
    var t := Tagged(cap, a);
    assert ValidCode(t.c) && ValidChoice(t);
    assert |EncCode(t.c)| == |EncCode(a.c)| + if cap > EXTRACT_BASIC_MAX then 3 else 0;
    assert EncMore(t) == EncMore(a);
  }

  lemma QuantRoom(dup: nat, q: Quant)
    requires q.Valid()
    ensures GroupQuantLength(dup, q) >= dup
  {
  }

  /** What the first pass allows for a group holds one copy of it. */
  lemma GroupRoom(p: Piece)
    requires ValidAtom(p.a) && p.q.Valid() && p.a.Group?
    ensures AltsLength(p.a.alts) >= 0
    ensures 3 + (if p.a.cap > EXTRACT_BASIC_MAX then 3 else 0) + AltsLength(p.a.alts) + 3 <= PieceLength(p)
  {
    hide AltsLength, GroupQuantLength, EncChoice;
    AltsFit(p.a.alts);
    AltsValid(p.a.alts);
    assert |EncChoice(OP_ALT, LowerAlts(p.a.alts))| >= 3;
    var dup := 3 + (if p.a.cap > EXTRACT_BASIC_MAX then 3 else 0) + AltsLength(p.a.alts) + 3;
    QuantRoom(dup, p.q);
    assert PieceLength(p) == GroupQuantLength(dup, p.q);
  }

  lemma {:induction false} BranchFits(b: Branch)
    requires ValidBranch(b)
    ensures ValidCode(LowerBranch(b)) && |EncCode(LowerBranch(b))| <= BranchLength(b)
    decreases b
  {
    BranchValid(b);
    if b.Cons? {
      PieceFits(b.hd);
      BranchFits(b.tl);
      EncAppend(LowerPiece(b.hd), LowerBranch(b.tl));
    }
  }

  /** The alternatives of a bracket, headers included, fit in what the first pass allows. */
  lemma {:induction false} AltsFit(alts: Alts)
    requires ValidAlts(alts)
    ensures ValidChoice(LowerAlts(alts))
    ensures forall op: byte :: |EncChoice(op, LowerAlts(alts))| <= 3 + AltsLength(alts)
    decreases alts
  {
    AltsValid(alts);
    BranchFits(alts.b);
    if alts.Alt? {
      AltsFit(alts.more);
      assert |EncChoice(OP_ALT, LowerAlts(alts.more))| <= 3 + AltsLength(alts.more);
    }
  }

  lemma AltsRoom(alts: Alts)
    requires ValidAlts(alts)
    ensures 0 <= BranchLength(alts.b) <= AltsLength(alts) && (alts.Alt? ==> AltsLength(alts.more) >= 0)
  {
    BranchFits(alts.b);
    if alts.Alt? {
      AltsFit(alts.more);
      assert |EncChoice(OP_ALT, LowerAlts(alts.more))| >= 3;
    }
  }

  /** The whole compiled pattern, with its final OP_END, fits: ERR23 cannot arise. */
  lemma PatternFits(alts: Alts)
    requires ValidAlts(alts)
    ensures ValidNode(LowerPattern(alts)) && |EncNode(LowerPattern(alts))| + 1 <= PatternLength(alts)
  {
    AltsFit(alts);
    BraSize(0, LowerAlts(alts), Plain);
  }

  // ----- where the count is exact -----

  /** No quantifiers. */
  predicate UnquantifiedBranch(b: Branch)
    decreases b
  {
    b.Cons? ==> b.hd.q.Once? && (b.hd.a.Group? ==> UnquantifiedAlts(b.hd.a.alts)) && UnquantifiedBranch(b.tl)
  }

  predicate UnquantifiedAlts(alts: Alts)
    decreases alts
  {
    UnquantifiedBranch(alts.b) && (alts.Alt? ==> UnquantifiedAlts(alts.more))
  }

  /** How many negated single bytes there are; each is counted with one byte more than it takes. */
  function BranchNegated(b: Branch): nat
    decreases b
  {
    if b.Nil? then 0 else
    (if b.hd.a.Single? && b.hd.a.t.NotChar? then 1 else if b.hd.a.Group? then AltsNegated(b.hd.a.alts) else 0) + BranchNegated(b.tl)
  }

  function AltsNegated(alts: Alts): nat
    decreases alts
  {
    BranchNegated(alts.b) + if alts.Alt? then AltsNegated(alts.more) else 0
  }

  lemma {:induction false} PieceCounted(p: Piece)
    requires ValidAtom(p.a) && p.q.Once? && (p.a.Group? ==> UnquantifiedAlts(p.a.alts))
    ensures ValidCode(LowerPiece(p))
    ensures PieceLength(p) == |EncCode(LowerPiece(p))| +
              if p.a.Single? && p.a.t.NotChar? then 1 else if p.a.Group? then AltsNegated(p.a.alts) else 0
    decreases p, 0
  {
    PieceValid(p);
    match p.a
    case Lit(run) => UnitSize(Chars(run));
    case Single(t) => UnitSize(One(t));
    case Circ => UnitSize(AtStart);
    case Doll => UnitSize(AtEnd);
    case Group(cap, alts) =>
      hide LowerAlts, EncNode, EncChoice, AltsLength, AltsNegated;
      AltsCounted(alts, BraByte(cap));
      TaggedSize(cap, LowerAlts(alts));
      var plain := Bra(cap, Tagged(cap, LowerAlts(alts)), Plain);
      BraSize(cap, Tagged(cap, LowerAlts(alts)), Plain);
      UnitSize(plain);
  }

  lemma {:induction false} BranchCounted(b: Branch)
    requires ValidBranch(b) && UnquantifiedBranch(b)
    ensures ValidCode(LowerBranch(b)) && BranchLength(b) == |EncCode(LowerBranch(b))| + BranchNegated(b)
    decreases b, 1
  {
    BranchValid(b);
    if b.Cons? {
      PieceCounted(b.hd);
      BranchCounted(b.tl);
      EncAppend(LowerPiece(b.hd), LowerBranch(b.tl));
    }
  }

  lemma {:induction false} AltsCounted(alts: Alts, op: byte)
    requires ValidAlts(alts) && UnquantifiedAlts(alts)
    ensures ValidChoice(LowerAlts(alts)) && 3 + AltsLength(alts) == |EncChoice(op, LowerAlts(alts))| + AltsNegated(alts)
    decreases alts, 2
  {
    AltsValid(alts);
    BranchCounted(alts.b);
    if alts.Alt? { AltsCounted(alts.more, OP_ALT); }
  }

  /** Without quantifiers the count is exact, but for one byte too many for each negated byte. */
  lemma PatternExact(alts: Alts)
    requires ValidAlts(alts) && UnquantifiedAlts(alts)
    ensures ValidNode(LowerPattern(alts)) && PatternLength(alts) == |EncNode(LowerPattern(alts))| + 1 + AltsNegated(alts)
  {
    AltsCounted(alts, OP_BRA);
    BraSize(0, LowerAlts(alts), Plain);
  }
}
