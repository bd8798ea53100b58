/**
 * set_start_bits (pcre-5.0): a map of the bytes a match can begin with, collected from the items
 * that can come first.
 */
module Study {
  import opened Bytes
  import opened Opcodes
  import opened Subject
  import opened Regex
  import opened Language
  import opened Program
  import opened Lower
  import opened Machine
  import opened Layout
  import opened FixedLength
  import opened Wrappers
  import opened Pattern
  import opened Earlier
  import opened Stuck
  import Exec

  const CTYPE_LETTER := 1

  /** The class maps of the tables: cbit_digit, cbit_space and cbit_word. */
  datatype Maps = Maps(digit: seq<byte>, space: seq<byte>, word: seq<byte>) {
    predicate Valid() {
      |digit| == 32 && |space| == 32 && |word| == 32
    }
  }

  /** VT is in the space map, but `\s` does not accept it. */
  const VT: byte := 11

  /** The maps agree with the type table, except for VT. */
  ghost predicate Agree(tab: TableSet, maps: Maps) {
    maps.Valid() && tab.CaseConsistent() &&
    (forall c: byte :: InMap(maps.digit, c) <==> BitSet(tab.ctypes[c], CTYPE_DIGIT)) &&
    (forall c: byte :: InMap(maps.word, c) <==> BitSet(tab.ctypes[c], CTYPE_WORD)) &&
    (forall c: byte :: InMap(maps.space, c) <==> BitSet(tab.ctypes[c], CTYPE_SPACE) || c == VT) &&
    !BitSet(tab.ctypes[VT], CTYPE_SPACE) &&
    (forall c: byte :: !BitSet(tab.ctypes[c], CTYPE_LETTER) ==> tab.fcc[c] == c)
  }

  /** The bytes whose bits set_bit sets for `c`. */
  predicate CaseBits(tab: TableSet, caseless: bool, c: byte, x: byte) {
    x == c || (caseless && BitSet(tab.ctypes[c], CTYPE_LETTER) && x == tab.fcc[c])
  }

  predicate TypeBits(maps: Maps, op: TypeOp, x: byte)
    requires maps.Valid()
  {
    match op
    case NotDigit => !InMap(maps.digit, x)
    case Digit => InMap(maps.digit, x)
    case NotSpace => !InMap(maps.space, x)
    case Space => InMap(maps.space, x)
    case NotWord => !InMap(maps.word, x)
    case Word => InMap(maps.word, x)
    case Any => false
  }

  /** What an item does to the scan of its branch: give up, go on to the next item, or be the last one to look at. */
  datatype Step = GiveUp | GoOn | Stop

  function NodeStep(n: Node): Step
    decreases n
  {
    match n
    case Chars(_) => Stop
    case One(t) => if t.NotChar? || t == Type(Any) then GiveUp else Stop
    case Many(t, min, _, _, _) => if t.NotChar? || t == Type(Any) then GiveUp else if min == 0 then GoOn else Stop
    case AtStart => GiveUp
    case AtEnd => GiveUp
    case Number(_) => GoOn
    case Bra(_, alts, _) => if KnownChoice(alts) then Stop else GiveUp
    case Zero(g, _) => if g.Bra? && KnownChoice(g.alts) then GoOn else GiveUp
  }

  /** set_start_bits returns TRUE. */
  predicate KnownCode(c: Code)
    decreases c
  {
    c.Then? && !NodeStep(c.hd).GiveUp? && (NodeStep(c.hd).GoOn? ==> KnownCode(c.tl))
  }

  predicate KnownChoice(a: Choice)
    decreases a
  {
    KnownCode(a.c) && (a.Or? ==> KnownChoice(a.more))
  }

  predicate TestBits(tab: TableSet, maps: Maps, caseless: bool, t: Test, x: byte)
    requires maps.Valid() && t.Valid()
  {
    match t
    case Char(c) => CaseBits(tab, caseless, c, x)
    case NotChar(_) => false
    case Type(op) => TypeBits(maps, op, x)
    case Class(_, bits) => InMap(bits, x)
  }

  /** The bytes whose bits an item adds. */
  predicate NodeBits(tab: TableSet, maps: Maps, caseless: bool, n: Node, x: byte)
    requires maps.Valid() && ValidNode(n)
    decreases n
  {
    match n
    case Chars(run) => CaseBits(tab, caseless, run[0], x)
    case One(t) => TestBits(tab, maps, caseless, t, x)
    case Many(t, _, _, _, _) => TestBits(tab, maps, caseless, t, x)
    case Bra(_, alts, _) => ChoiceBits(tab, maps, caseless, alts, x)
    case Zero(g, _) => NodeBits(tab, maps, caseless, g, x)
    case _ => false
  }

  predicate CodeBits(tab: TableSet, maps: Maps, caseless: bool, c: Code, x: byte)
    requires maps.Valid() && ValidCode(c)
    decreases c
  {
    c.Then? && (NodeBits(tab, maps, caseless, c.hd, x) || (NodeStep(c.hd).GoOn? && CodeBits(tab, maps, caseless, c.tl, x)))
  }

  predicate ChoiceBits(tab: TableSet, maps: Maps, caseless: bool, a: Choice, x: byte)
    requires maps.Valid() && ValidChoice(a)
    decreases a
  {
    CodeBits(tab, maps, caseless, a.c, x) || (a.Or? && ChoiceBits(tab, maps, caseless, a.more, x))
  }

  // ----- what can begin a match -----

  /** An item that is looked at accepts `x` as its first byte. */
  predicate NodeStarts(E: Env, n: Node, x: byte)
    requires ValidNode(n)
    decreases n
  {
    match n
    case Chars(run) => SameByte(E, run[0], x)
    case One(t) => Accepts(E, t, x)
    case Many(t, _, _, _, _) => Accepts(E, t, x)
    case Bra(_, alts, _) => ChoiceStarts(E, alts, x)
    case Zero(g, _) => NodeStarts(E, g, x)
    case _ => false
  }

  predicate CodeStarts(E: Env, c: Code, x: byte)
    requires ValidCode(c)
    decreases c
  {
    c.Then? && (NodeStarts(E, c.hd, x) || (NodeStep(c.hd).GoOn? && CodeStarts(E, c.tl, x)))
  }

  predicate ChoiceStarts(E: Env, a: Choice, x: byte)
    requires ValidChoice(a)
    decreases a
  {
    CodeStarts(E, a.c, x) || (a.Or? && ChoiceStarts(E, a.more, x))
  }

  /** `\S`, whose map leaves out VT, is among the items that are looked at. */
  predicate NodeNotSpace(n: Node)
    decreases n
  {
    match n
    case One(t) => t == Type(NotSpace)
    case Many(t, _, _, _, _) => t == Type(NotSpace)
    case Bra(_, alts, _) => ChoiceNotSpace(alts)
    case Zero(g, _) => NodeNotSpace(g)
    case _ => false
  }

  predicate CodeNotSpace(c: Code)
    decreases c
  {
    c.Then? && (NodeNotSpace(c.hd) || (NodeStep(c.hd).GoOn? && CodeNotSpace(c.tl)))
  }

  predicate ChoiceNotSpace(a: Choice)
    decreases a
  {
    CodeNotSpace(a.c) || (a.Or? && ChoiceNotSpace(a.more))
  }

  // ----- the maps against the tests -----

  lemma TestCovered(E: Env, maps: Maps, t: Test, x: byte)
    requires Agree(E.tab, maps) && t.Valid() && !t.NotChar? && t != Type(Any) && Accepts(E, t, x)
    ensures TestBits(E.tab, maps, E.opt.caseless, t, x) || (t == Type(NotSpace) && x == VT)
  {
  }

  /** Every byte accepted first has its bit, except VT where only `\S` accepts it. */
  lemma {:induction false} NodeCovered(E: Env, maps: Maps, n: Node, x: byte)
    requires Agree(E.tab, maps) && ValidNode(n) && !NodeStep(n).GiveUp? && NodeStarts(E, n, x)
    ensures NodeBits(E.tab, maps, E.opt.caseless, n, x) || (x == VT && NodeNotSpace(n))
    decreases n
  {
    match n
    case Chars(run) => CaseInBits(E, maps, run[0], x);
    case One(t) => TestCovered(E, maps, t, x);
    case Many(t, _, _, _, _) => TestCovered(E, maps, t, x);
    case Bra(_, alts, _) => ChoiceCovered(E, maps, alts, x);
    case Zero(g, _) => ChoiceCovered(E, maps, g.alts, x);
    case _ =>
  }

  lemma {:induction false} CodeCovered(E: Env, maps: Maps, c: Code, x: byte)
    requires Agree(E.tab, maps) && ValidCode(c) && KnownCode(c) && CodeStarts(E, c, x)
    ensures CodeBits(E.tab, maps, E.opt.caseless, c, x) || (x == VT && CodeNotSpace(c))
    decreases c
  {
    if NodeStarts(E, c.hd, x) { NodeCovered(E, maps, c.hd, x); } else { CodeCovered(E, maps, c.tl, x); }
  }

  lemma {:induction false} ChoiceCovered(E: Env, maps: Maps, a: Choice, x: byte)
    requires Agree(E.tab, maps) && ValidChoice(a) && KnownChoice(a) && ChoiceStarts(E, a, x)
    ensures ChoiceBits(E.tab, maps, E.opt.caseless, a, x) || (x == VT && ChoiceNotSpace(a))
    decreases a
  {
    if CodeStarts(E, a.c, x) { CodeCovered(E, maps, a.c, x); } else { ChoiceCovered(E, maps, a.more, x); }
  }

  /** `\S` accepts VT. */
  lemma {:induction false} NodeVT(E: Env, maps: Maps, n: Node)
    requires Agree(E.tab, maps) && ValidNode(n) && NodeNotSpace(n)
    ensures NodeStarts(E, n, VT)
    decreases n
  {
    match n
    case Bra(_, alts, _) => ChoiceVT(E, maps, alts);
    case Zero(g, _) => NodeVT(E, maps, g);
    case _ =>
  }

  lemma {:induction false} CodeVT(E: Env, maps: Maps, c: Code)
    requires Agree(E.tab, maps) && ValidCode(c) && CodeNotSpace(c)
    ensures CodeStarts(E, c, VT)
    decreases c
  {
    if NodeNotSpace(c.hd) { NodeVT(E, maps, c.hd); } else { CodeVT(E, maps, c.tl); }
  }

  lemma {:induction false} ChoiceVT(E: Env, maps: Maps, a: Choice)
    requires Agree(E.tab, maps) && ValidChoice(a) && ChoiceNotSpace(a)
    ensures ChoiceStarts(E, a, VT)
    decreases a
  {
    if CodeNotSpace(a.c) { CodeVT(E, maps, a.c); } else { ChoiceVT(E, maps, a.more); }
  }

  /** Nothing that is looked at is `\S`, or another item that is looked at adds VT. */
  predicate MapComplete(tab: TableSet, maps: Maps, caseless: bool, a: Choice)
    requires maps.Valid() && ValidChoice(a)
  {
    ChoiceNotSpace(a) ==> ChoiceBits(tab, maps, caseless, a, VT)
  }

  lemma LacksOne(E: Env, maps: Maps, a: Choice, x: byte)
    requires maps.Valid() && ValidChoice(a) && ChoiceStarts(E, a, x) && !ChoiceBits(E.tab, maps, E.opt.caseless, a, x)
    ensures !(forall y: byte :: ChoiceStarts(E, a, y) ==> ChoiceBits(E.tab, maps, E.opt.caseless, a, y))
  {
    hide ChoiceStarts, ChoiceBits;
  }

  /** Exactly then the map has every byte that the items looked at accept. */
  lemma MapCompleteIff(E: Env, maps: Maps, a: Choice)
    requires Agree(E.tab, maps) && ValidChoice(a) && KnownChoice(a)
    ensures (forall x: byte :: ChoiceStarts(E, a, x) ==> ChoiceBits(E.tab, maps, E.opt.caseless, a, x))
            <==> MapComplete(E.tab, maps, E.opt.caseless, a)
  {
    hide KnownChoice, ChoiceStarts, ChoiceBits, ChoiceNotSpace;
    if ChoiceNotSpace(a) { ChoiceVT(E, maps, a); }
    if MapComplete(E.tab, maps, E.opt.caseless, a) {
      forall x: byte | ChoiceStarts(E, a, x) ensures ChoiceBits(E.tab, maps, E.opt.caseless, a, x) {
        ChoiceCovered(E, maps, a, x);
      }
    } else {
      LacksOne(E, maps, a, VT);
    }
  }

  lemma CaseInBits(E: Env, maps: Maps, c: byte, x: byte)
    requires Agree(E.tab, maps) && SameByte(E, c, x)
    ensures CaseBits(E.tab, E.opt.caseless, c, x)
  {
  }

  // ----- soundness -----

  /** Forward, and if anything was taken, from a byte the item accepts first. */
  ghost predicate Led(E: Env, n: Node, st: St, e: St)
    requires ValidNode(n)
  {
    st.pos <= e.pos && (st.pos < e.pos ==> st.pos < |E.s| && NodeStarts(E, n, E.s[st.pos]))
  }

  lemma {:induction false} TestLed(E: Env, t: Test, min: nat, max: int, lazy: bool, st: St, e: St)
    requires t.Valid() && e in TestEnds(E, t, min, max, lazy, st) && (max == 0 ==> min == 0)
    ensures st.pos + (if min > 0 then 1 else 0) <= e.pos && (st.pos < e.pos ==> Hit(E, t, st.pos))
    decreases if st.pos < |E.s| then |E.s| - st.pos else 0
  {
    if max != 0 && (min > 0 || e != st) {
      assert Hit(E, t, st.pos);
      var next := st.(pos := st.pos + 1);
      if Dec(max) == 0 && Pred(min) > 0 {
        assert TestEnds(E, t, Pred(min), 0, lazy, next) == [next];
      } else {
        TestLed(E, t, Pred(min), Dec(max), lazy, next, e);
      }
    }
  }

  lemma {:induction false} NodeForward(E: Env, n: Node, st: St, e: St)
    requires ValidNode(n) && e in NodeEnds(E, n, st)
    ensures st.pos <= e.pos
    decreases n, 3
  {
    match n
    case Chars(_) =>
    case One(t) => TestLed(E, t, 1, 1, false, st, e);
    case Many(t, min, max, lazy, _) => TestLed(E, t, min, max, lazy, st, e);
    case AtStart =>
    case AtEnd =>
    case Number(_) =>
    case Bra(_, _, _) =>
      var r := KetFrom(E, n, st.pos, PassEnds(E, n, st), e);
      PassForward(E, n, st, r);
      KetForward(E, n, st.pos, r, e);
    case Zero(g, _) => if e != st { NodeForward(E, g, st, e); }
  }

  lemma {:induction false} PassForward(E: Env, g: Node, st: St, r: St)
    requires g.Bra? && ValidNode(g) && r in PassEnds(E, g, st)
    ensures st.pos <= r.pos
    decreases g, 1
  {
    var i :| 0 <= i < |PassEnds(E, g, st)| && r == PassEnds(E, g, st)[i];
    ChoiceForward(E, g.alts, st, ChoiceEnds(E, g.alts, st)[i]);
  }

  lemma {:induction false} KetForward(E: Env, g: Node, start: nat, r: St, e: St)
    requires g.Bra? && ValidNode(g) && e in KetEnds(E, g, start, r)
    ensures r.pos <= e.pos
    decreases g, 2, if start < |E.s| then |E.s| - start else 0
  {
    if e != r {
      var r1 := KetFrom(E, g, r.pos, PassEnds(E, g, r), e);
      PassForward(E, g, r, r1);
      KetForward(E, g, r.pos, r1, e);
    }
  }

  lemma {:induction false} CodeForward(E: Env, c: Code, st: St, e: St)
    requires ValidCode(c) && e in CodeEnds(E, c, st)
    ensures st.pos <= e.pos
    decreases c, 0
  {
    if c.Then? {
      var r := CodeFrom(E, c.tl, NodeEnds(E, c.hd, st), e);
      NodeForward(E, c.hd, st, r);
      CodeForward(E, c.tl, r, e);
    }
  }

  lemma {:induction false} ChoiceForward(E: Env, a: Choice, st: St, e: St)
    requires ValidChoice(a) && e in ChoiceEnds(E, a, st)
    ensures st.pos <= e.pos
    decreases a, 0
  {
    if e in CodeEnds(E, a.c, st) { CodeForward(E, a.c, st, e); } else { ChoiceForward(E, a.more, st, e); }
  }

  lemma {:induction false} NodeLed(E: Env, n: Node, st: St, e: St)
    requires ValidNode(n) && !NodeStep(n).GiveUp? && e in NodeEnds(E, n, st)
    ensures Led(E, n, st, e) && (NodeStep(n).Stop? ==> st.pos < e.pos)
    decreases n, 1
  {
    match n
    case Chars(run) => assert SameByte(E, run[0], E.s[st.pos + 0]);
    case One(t) => TestLed(E, t, 1, 1, false, st, e);
    case Many(t, min, max, lazy, _) => TestLed(E, t, min, max, lazy, st, e);
    case Number(_) =>
    case Bra(_, _, _) => BraLed(E, n, st, e);
    case Zero(g, _) => if e != st { BraLed(E, g, st, e); }
    case _ =>
  }

  lemma {:induction false} BraLed(E: Env, g: Node, st: St, e: St)
    requires g.Bra? && ValidNode(g) && KnownChoice(g.alts) && e in NodeEnds(E, g, st)
    ensures st.pos < e.pos && st.pos < |E.s| && ChoiceStarts(E, g.alts, E.s[st.pos])
    decreases g, 0
  {
    var r := KetFrom(E, g, st.pos, PassEnds(E, g, st), e);
    var i :| 0 <= i < |PassEnds(E, g, st)| && r == PassEnds(E, g, st)[i];
    ChoiceLed(E, g.alts, st, ChoiceEnds(E, g.alts, st)[i]);
    KetForward(E, g, st.pos, r, e);
  }

  lemma {:induction false} CodeLed(E: Env, c: Code, st: St, e: St)
    requires ValidCode(c) && KnownCode(c) && e in CodeEnds(E, c, st)
    ensures st.pos < e.pos && st.pos < |E.s| && CodeStarts(E, c, E.s[st.pos])
    decreases c, 2
  {
    var r := CodeFrom(E, c.tl, NodeEnds(E, c.hd, st), e);
    NodeLed(E, c.hd, st, r);
    CodeForward(E, c.tl, r, e);
    if r.pos == st.pos { CodeLed(E, c.tl, r, e); }
  }

  /** A match of code whose starts are known is not empty, and begins with a byte that an item looked at accepts. */
  lemma {:induction false} ChoiceLed(E: Env, a: Choice, st: St, e: St)
    requires ValidChoice(a) && KnownChoice(a) && e in ChoiceEnds(E, a, st)
    ensures st.pos < e.pos && st.pos < |E.s| && ChoiceStarts(E, a, E.s[st.pos])
    decreases a, 2
  {
    if e in CodeEnds(E, a.c, st) { CodeLed(E, a.c, st, e); } else { ChoiceLed(E, a.more, st, e); }
  }

  // ----- maps -----

  lemma OrOne(bits: seq<byte>, c: byte, x: byte)
    requires |bits| == 32
    ensures InMap(bits[c / 8 := OrByte(bits[c / 8], BitByte(c % 8))], x) <==> InMap(bits, x) || x == c
  {
    OrSet(bits[c / 8], BitByte(c % 8), 8, x % 8);
    OneSet(c % 8, x % 8);
  }

  method SetBit(bits: array<byte>, c: byte, caseless: bool, tab: TableSet)
    requires bits.Length == 32
    modifies bits
    ensures forall x: byte :: InMap(bits[..], x) <==> old(InMap(bits[..], x)) || CaseBits(tab, caseless, c, x)
  {
    ghost var was := bits[..];
    bits[c / 8] := OrByte(bits[c / 8], BitByte(c % 8));
    forall x: byte ensures InMap(bits[..], x) <==> InMap(was, x) || x == c {
      OrOne(was, c, x);
      assert bits[..] == was[c / 8 := OrByte(was[c / 8], BitByte(c % 8))];
    }
    if caseless && BitSet(tab.ctypes[c], CTYPE_LETTER) {
      var f := tab.fcc[c];
      ghost var now := bits[..];
      bits[f / 8] := OrByte(bits[f / 8], BitByte(f % 8));
      forall x: byte ensures InMap(bits[..], x) <==> InMap(now, x) || x == f {
        OrOne(now, f, x);
        assert bits[..] == now[f / 8 := OrByte(now[f / 8], BitByte(f % 8))];
      }
    }
  }

  lemma OrBit(was: seq<byte>, now: seq<byte>, klass: seq<byte>, complement: bool, i: nat, n: nat)
    requires |was| == |now| == |klass| == 32 && i < 32 && n < 8
    requires now[i] == OrByte(was[i], if complement then NotByte(klass[i]) else klass[i])
    ensures BitSet(now[i], n) <==> BitSet(was[i], n) || (BitSet(klass[i], n) != complement)
  {
    hide BitSet, OrBits, NotBits;
    OrSet(was[i], if complement then NotByte(klass[i]) else klass[i], 8, n);
    NotSet(klass[i], 8, n);
  }

  /** Adds a class map, or its complement. */
  method OrMap(bits: array<byte>, klass: seq<byte>, complement: bool)
    requires bits.Length == 32 && |klass| == 32
    modifies bits
    ensures forall x: byte :: InMap(bits[..], x) <==> old(InMap(bits[..], x)) || (InMap(klass, x) != complement)
  {
    hide BitSet, OrByte, NotByte;
    ghost var was := bits[..];
    var c := 0;
    while c < 32
      invariant 0 <= c <= 32
      invariant forall i :: c <= i < 32 ==> bits[i] == was[i]
      invariant forall i :: 0 <= i < c ==> bits[i] == OrByte(was[i], if complement then NotByte(klass[i]) else klass[i])
    {
      bits[c] := OrByte(bits[c], if complement then NotByte(klass[c]) else klass[c]);
      c := c + 1;
    }
    forall x: byte ensures InMap(bits[..], x) <==> InMap(was, x) || (InMap(klass, x) != complement) {
      OrBit(was, bits[..], klass, complement, x / 8, x % 8);
    }
  }

  // ----- what the bytes of an item tell -----

  lemma RepeatBytes(n: Node)
    requires ValidNode(n) && n.Many? && !n.t.Class?
    ensures var e, base := EncNode(n), RepeatBase(n.t);
            && base <= e[0] <= base + 8 && |e| == (if e[0] < base + 6 then 2 else 4) && e[|e| - 1] == Operand(n.t)
            && (n.min == 0 <==> e[0] < base + 2 || base + 4 <= e[0] < base + 8)
  {
  }

  /** A class map, and whether what follows it allows the class to be skipped. */
  lemma ClassStart(n: Node)
    requires ValidNode(n) && (n.One? || n.Many?) && n.t.Class?
    ensures var e := EncNode(n);
            && |e| >= 33 && e[1..33] == n.t.bits && (n.One? ==> |e| == 33)
            && (n.Many? ==> |e| > 33 && OP_CRSTAR <= e[33] <= OP_CRRANGE + 1 && (e[33] >= OP_CRRANGE ==> |e| == 38) && (e[33] < OP_CRRANGE ==> |e| == 34)
                            && (n.min == 0 <==>
                                 || e[33] < OP_CRPLUS || e[33] == OP_CRQUERY || e[33] == OP_CRQUERY + 1
                                 || (e[33] >= OP_CRRANGE && Get(e, 34) == 0)))
  {
  }

  // ----- the scan -----

  /** A single character type sets its bits; OP_ANY and anything else is given up on. */
  method TypeItem(op: byte, bits: array<byte>, maps: Maps) returns (known: bool)
    requires bits.Length == 32 && maps.Valid()
    modifies bits
    ensures known <==> OP_NOT_DIGIT <= op < OP_ANY
    ensures known ==> forall t: TypeOp, x: byte :: TypeByte(t) == op ==> (InMap(bits[..], x) <==> old(InMap(bits[..], x)) || TypeBits(maps, t, x))
  {
    known := true;
    if op == OP_NOT_DIGIT { OrMap(bits, maps.digit, true); }
    else if op == OP_DIGIT { OrMap(bits, maps.digit, false); }
    else if op == OP_NOT_WHITESPACE { OrMap(bits, maps.space, true); }
    else if op == OP_WHITESPACE { OrMap(bits, maps.space, false); }
    else if op == OP_NOT_WORDCHAR { OrMap(bits, maps.word, true); }
    else if op == OP_WORDCHAR { OrMap(bits, maps.word, false); }
    else { known := false; }
  }

  /** An item that is not a bracket: what it adds to the map, and how the scan goes on. */
  method PlainItem(code: seq<byte>, tcode: nat, bits: array<byte>, caseless: bool, tab: TableSet, maps: Maps, ghost k: Todo)
    returns (step: Step, next: nat)
    requires Placed(code, k) && tcode == Pc(code, k) && k.rest.Then? && !k.rest.hd.Bra? && !k.rest.hd.Zero? && ValidNode(k.rest.hd)
    requires bits.Length == 32 && maps.Valid()
    modifies bits
    ensures step == NodeStep(k.rest.hd)
    ensures !step.GiveUp? ==> forall x: byte :: InMap(bits[..], x) <==> old(InMap(bits[..], x)) || NodeBits(tab, maps, caseless, k.rest.hd, x)
    ensures step.GoOn? ==> Machine.Valid(Next(k)) && Placed(code, Next(k)) && next == Pc(code, Next(k)) && tcode < next
  {
    hide Text, EncNode, EncCode;
    ghost var n, e := k.rest.hd, EncNode(k.rest.hd);
    StepOver(code, k);
    TextThen(k);
    FirstByte(n);
    var op := code[tcode];
    assert op == e[0];
    step, next := GiveUp, tcode;
    if op == OP_BRANUMBER {
      NumberBytes(n.n);
      step, next := GoOn, tcode + 3;
    } else if op == OP_CHARS {
      CharsBytes(n);
      assert e[2] == code[tcode + 2];
      SetBit(bits, code[tcode + 2], caseless, tab);
      step := Stop;
    } else if OP_NOT_DIGIT <= op <= OP_ANY {
      TypeIs(n);
      var known := TypeItem(op, bits, maps);
      if known { step := Stop; }
    } else if op == OP_CLASS || op == OP_NCLASS {
      IsClass(n);
      step, next := StudyClass(code, tcode, bits, k);
    } else if OP_STAR <= op <= OP_EXACT {
      RepeatIs(n);
      RepeatBytes(n);
      var at := tcode + if op < OP_UPTO then 1 else 3;
      assert e[|e| - 1] == code[at];
      SetBit(bits, code[at], caseless, tab);
      step, next := if op == OP_PLUS || op == OP_PLUS + 1 || op == OP_EXACT then Stop else GoOn, at + 1;
    } else if OP_TYPESTAR <= op <= OP_TYPEEXACT {
      RepeatIs(n);
      RepeatBytes(n);
      var at := tcode + if op < OP_TYPESTAR + 6 then 1 else 3;
      assert e[|e| - 1] == code[at];
      var known := TypeItem(code[at], bits, maps);
      if known { step, next := if op == OP_TYPESTAR + 2 || op == OP_TYPESTAR + 3 || op == OP_TYPEEXACT then Stop else GoOn, at + 1; }
    } else {
      OtherIs(n);
    }
  }

  /** `^`, `$`, a negated byte and its repeats. */
  lemma OtherIs(n: Node)
    requires ValidNode(n) && !n.Bra? && !n.Zero?
    requires var op := EncNode(n)[0];
             op != OP_BRANUMBER && op != OP_CHARS && !(OP_NOT_DIGIT <= op <= OP_ANY) && !ClassByte(op)
             && !(OP_STAR <= op <= OP_EXACT) && !(OP_TYPESTAR <= op <= OP_TYPEEXACT)
    ensures NodeStep(n).GiveUp?
  {
    FirstByte(n);
    if n.Many? { RepeatIs(n); }
  }

  lemma CharsBytes(n: Node)
    requires ValidNode(n) && EncNode(n)[0] == OP_CHARS
    ensures n.Chars? && |EncNode(n)| >= 3 && EncNode(n)[2] == n.run[0]
  {
  }

  lemma TypeIs(n: Node)
    requires ValidNode(n) && OP_NOT_DIGIT <= EncNode(n)[0] <= OP_ANY
    ensures n.One? && n.t.Type? && TypeByte(n.t.op) == EncNode(n)[0]
  {
  }

  lemma RepeatIs(n: Node)
    requires ValidNode(n) && OP_STAR <= EncNode(n)[0] <= OP_TYPEEXACT
    ensures n.Many? && !n.t.Class?
    ensures EncNode(n)[0] <= OP_EXACT ==> n.t.Char?
    ensures OP_TYPESTAR <= EncNode(n)[0] ==> n.t.Type?
    ensures OP_EXACT < EncNode(n)[0] < OP_TYPESTAR ==> n.t.NotChar?
  {
  }

  /** A class with what follows it. */
  method StudyClass(code: seq<byte>, tcode: nat, bits: array<byte>, ghost k: Todo) returns (step: Step, next: nat)
    requires Placed(code, k) && tcode == Pc(code, k) && k.rest.Then? && ValidNode(k.rest.hd) && bits.Length == 32
    requires (k.rest.hd.One? || k.rest.hd.Many?) && k.rest.hd.t.Class?
    modifies bits
    ensures step == NodeStep(k.rest.hd)
    ensures forall x: byte :: InMap(bits[..], x) <==> old(InMap(bits[..], x)) || InMap(k.rest.hd.t.bits, x)
    ensures step.GoOn? ==> Machine.Valid(Next(k)) && Placed(code, Next(k)) && next == Pc(code, Next(k)) && tcode < next
  {
    hide Text, EncNode, EncCode;
    ghost var n, e := k.rest.hd, EncNode(k.rest.hd);
    StepOver(code, k);
    ClassStart(n);
    NotClassRepeat(code, Next(k));
    assert code[tcode + 1..tcode + 33] == e[1..33];
    OrMap(bits, code[tcode + 1..tcode + 33], false);
    next := tcode + 33;
    step := Stop;
    var op := code[next];
    if n.Many? { assert op == e[33]; }
    if op == OP_CRSTAR || op == OP_CRSTAR + 1 || op == OP_CRQUERY || op == OP_CRQUERY + 1 {
      step, next := GoOn, next + 1;
    } else if op == OP_CRRANGE || op == OP_CRRANGE + 1 {
      assert e[34] == code[tcode + 34] && e[35] == code[tcode + 35];
      if Get(code, next + 1) == 0 { step, next := GoOn, next + 5; }
    }
  }

  ghost function MapSet(bits: seq<byte>): iset<byte>
    requires |bits| == 32
  {
    iset x: byte | InMap(bits, x)
  }

  ghost function NodeSet(tab: TableSet, maps: Maps, caseless: bool, n: Node): iset<byte>
    requires maps.Valid() && ValidNode(n)
  {
    iset x: byte | NodeBits(tab, maps, caseless, n, x)
  }

  ghost function CodeSet(tab: TableSet, maps: Maps, caseless: bool, c: Code): iset<byte>
    requires maps.Valid() && ValidCode(c)
  {
    iset x: byte | CodeBits(tab, maps, caseless, c, x)
  }

  ghost function ChoiceSet(tab: TableSet, maps: Maps, caseless: bool, a: Choice): iset<byte>
    requires maps.Valid() && ValidChoice(a)
  {
    iset x: byte | ChoiceBits(tab, maps, caseless, a, x)
  }

  lemma CodeStep(tab: TableSet, maps: Maps, caseless: bool, c: Code)
    requires maps.Valid() && ValidCode(c) && c.Then?
    ensures ValidNode(c.hd) && ValidCode(c.tl)
    ensures CodeSet(tab, maps, caseless, c) ==
            NodeSet(tab, maps, caseless, c.hd) + if NodeStep(c.hd).GoOn? then CodeSet(tab, maps, caseless, c.tl) else iset{}
    ensures KnownCode(c) == (!NodeStep(c.hd).GiveUp? && (NodeStep(c.hd).GoOn? ==> KnownCode(c.tl)))
    ensures c.hd.Bra? ==> NodeSet(tab, maps, caseless, c.hd) == ChoiceSet(tab, maps, caseless, c.hd.alts)
                          && NodeStep(c.hd) == if KnownChoice(c.hd.alts) then Stop else GiveUp
    ensures c.hd.Zero? ==> c.hd.g.Bra? && ValidChoice(c.hd.g.alts)
                           && NodeSet(tab, maps, caseless, c.hd) == ChoiceSet(tab, maps, caseless, c.hd.g.alts)
                           && NodeStep(c.hd) == if KnownChoice(c.hd.g.alts) then GoOn else GiveUp
  {
    if c.hd.Zero? {
      assert ValidNode(c.hd.g);
      forall x: byte ensures NodeBits(tab, maps, caseless, c.hd, x) == ChoiceBits(tab, maps, caseless, c.hd.g.alts, x) {
        assert NodeBits(tab, maps, caseless, c.hd, x) == NodeBits(tab, maps, caseless, c.hd.g, x);
      }
    }
  }

  lemma ChoiceStep(tab: TableSet, maps: Maps, caseless: bool, a: Choice)
    requires maps.Valid() && ValidChoice(a)
    ensures a.Or? ==> ValidChoice(a.more)
    ensures ChoiceSet(tab, maps, caseless, a) ==
            CodeSet(tab, maps, caseless, a.c) + if a.Or? then ChoiceSet(tab, maps, caseless, a.more) else iset{}
    ensures KnownChoice(a) == (KnownCode(a.c) && (a.Or? ==> KnownChoice(a.more)))
  {
  }

  /** What the opcode of the next item says about it. */
  lemma ItemKind(code: seq<byte>, k: Todo)
    requires Placed(code, k)
    ensures 0 <= Pc(code, k) < |code|
    ensures var op := code[Pc(code, k)];
            && (op >= OP_BRA <==> k.rest.Then? && k.rest.hd.Bra?)
            && (op == OP_BRAZERO || op == OP_BRAZERO + 1 <==> k.rest.Then? && k.rest.hd.Zero?)
            && (op == OP_END || OP_ALT <= op <= OP_KETRMIN <==> k.rest.Empty?)
  {
    AtByte(code, k);
    if k.rest.Then? {
      StepOver(code, k);
      FirstByte(k.rest.hd);
    }
  }

  /** One branch, from `at` on. */
  method BranchStart(code: seq<byte>, at: nat, bits: array<byte>, caseless: bool, tab: TableSet, maps: Maps, ghost k: Todo) returns (known: bool)
    requires |code| <= MAX_PATTERN_SIZE && Machine.Valid(k) && Placed(code, k) && at == Pc(code, k) && bits.Length == 32 && maps.Valid()
    modifies bits
    ensures known == KnownCode(k.rest)
    ensures known ==> MapSet(bits[..]) == old(MapSet(bits[..])) + CodeSet(tab, maps, caseless, k.rest)
    decreases |code| - at, 1
  {
    hide Text, EncNode, EncCode, EncChoice, Placed, AltsAt, KnownCode, CodeSet, ChoiceSet, NodeStep, NodeSet;
    hide MapSet, NodeBits;
    var tcode := at;
    ghost var k1, want := k, MapSet(bits[..]) + CodeSet(tab, maps, caseless, k.rest);
    while true
      invariant at <= tcode && Machine.Valid(k1) && Placed(code, k1) && tcode == Pc(code, k1)
      invariant KnownCode(k1.rest) == KnownCode(k.rest) && MapSet(bits[..]) + CodeSet(tab, maps, caseless, k1.rest) == want
      decreases |code| - tcode
    {
      ItemKind(code, k1);
      var op := code[tcode];
      if op == OP_END || OP_ALT <= op <= OP_KETRMIN {
        NoneKnown();
        return false;
      }
      CodeStep(tab, maps, caseless, k1.rest);
      ghost var n, next := k1.rest.hd, Next(k1);
      if op >= OP_BRA {
        AtGroupItem(code, k1);
        known := SetStartBits(code, tcode, bits, caseless, tab, maps, BraByte(n.cap), n.alts, n, next);
        return;
      } else if op == OP_BRAZERO || op == OP_BRAZERO + 1 {
        AtZero(code, k1);
        known := SetStartBits(code, tcode + 1, bits, caseless, tab, maps, BraByte(n.g.cap), n.g.alts, n.g, next);
        if !known { return; }
        var ket := SkipGroup(code, tcode + 1, BraByte(n.g.cap), n.g.alts, n.g, next);
        tcode, k1 := ket + 3, next;
      } else {
        ghost var before := bits[..];
        var step, after := PlainItem(code, tcode, bits, caseless, tab, maps, k1);
        if step.GiveUp? { return false; }
        Added(before, bits[..], tab, maps, caseless, n);
        if step.Stop? { return true; }
        tcode, k1 := after, next;
      }
    }
  }

  lemma Added(before: seq<byte>, after: seq<byte>, tab: TableSet, maps: Maps, caseless: bool, n: Node)
    requires |before| == |after| == 32 && maps.Valid() && ValidNode(n)
    requires forall x: byte :: InMap(after, x) <==> InMap(before, x) || NodeBits(tab, maps, caseless, n, x)
    ensures MapSet(after) == MapSet(before) + NodeSet(tab, maps, caseless, n)
  {
  }

  lemma NoneKnown()
    ensures !KnownCode(Empty)
  {
  }

  /** The starts of all alternatives of the bracket at `at`. */
  method SetStartBits(code: seq<byte>, at: nat, bits: array<byte>, caseless: bool, tab: TableSet, maps: Maps,
                      ghost op: byte, ghost a: Choice, ghost g: Node, ghost k: Todo)
    returns (known: bool)
    requires |code| <= MAX_PATTERN_SIZE && ValidChoice(a) && AltsAt(code, at, op, a, g, k) && bits.Length == 32 && maps.Valid()
    modifies bits
    ensures known == KnownChoice(a)
    ensures known ==> MapSet(bits[..]) == old(MapSet(bits[..])) + ChoiceSet(tab, maps, caseless, a)
    decreases |code| - at, 0
  {
    hide Text, EncNode, EncCode, EncChoice, Placed, AltsAt, KnownCode, KnownChoice, CodeSet, ChoiceSet, MapSet;
    var pc := at;
    ghost var o, rest, want := op, a, MapSet(bits[..]) + ChoiceSet(tab, maps, caseless, a);
    while true
      invariant at <= pc && ValidChoice(rest) && AltsAt(code, pc, o, rest, g, k)
      invariant KnownChoice(rest) == KnownChoice(a) && MapSet(bits[..]) + ChoiceSet(tab, maps, caseless, rest) == want
      decreases |code| - pc
    {
      AtHeader(code, pc, o, rest, g, 0, k);
      ChoiceStep(tab, maps, caseless, rest);
      known := BranchStart(code, pc + 3, bits, caseless, tab, maps, Enter(rest, g, 0, k));
      if !known { return; }
      pc := pc + Get(code, pc + 1);
      if code[pc] != OP_ALT { return; }
      o, rest := OP_ALT, rest.more;
    }
  }

  // ----- pcre_study -----

  /** A byte that no item looked at accepts stops all alternatives. */
  lemma {:induction false} CodeQuiet(E: Env, c: Code, pos: nat)
    requires ValidCode(c) && KnownCode(c) && pos < |E.s| && !CodeStarts(E, c, E.s[pos])
    ensures StuckCode(E, c, pos)
    decreases c
  {
    var n := c.hd;
    assert ValidNode(n);
    match n
    case Chars(run) => assert !SameByte(E, run[0], E.s[pos + 0]);
    case Many(_, min, _, _, _) => if min == 0 { CodeQuiet(E, c.tl, pos); }
    case Bra(_, alts, _) => ChoiceQuiet(E, alts, pos);
    case Number(_) => CodeQuiet(E, c.tl, pos);
    case Zero(g, _) =>
      assert ValidNode(g) && !NodeStarts(E, g, E.s[pos]);
      ChoiceQuiet(E, g.alts, pos);
      CodeQuiet(E, c.tl, pos);
    case _ =>
  }

  lemma {:induction false} ChoiceQuiet(E: Env, a: Choice, pos: nat)
    requires ValidChoice(a) && KnownChoice(a) && pos < |E.s| && !ChoiceStarts(E, a, E.s[pos])
    ensures StuckChoice(E, a, pos)
    decreases a
  {
    CodeQuiet(E, a.c, pos);
    if a.Or? { ChoiceQuiet(E, a.more, pos); }
  }

  /** pcre_exec may rely on a map that has the bits of a complete one, whatever the subject. */
  lemma StudySound(E: Env, maps: Maps, alts: Alts, bits: seq<byte>)
    requires Agree(E.tab, maps) && ValidAlts(alts) && |bits| == 32
    requires ValidChoice(LowerAlts(alts)) && KnownChoice(LowerAlts(alts)) && MapComplete(E.tab, maps, E.opt.caseless, LowerAlts(alts))
    requires forall x: byte :: ChoiceBits(E.tab, maps, E.opt.caseless, LowerAlts(alts), x) ==> InMap(bits, x)
    ensures Exec.StudyOk(E, alts, bits)
  {
    hide KnownChoice, ChoiceStarts, ChoiceBits, ChoiceNotSpace, MapComplete, InMap, StuckChoice, AttemptTrack;
    hide Correct.Attempt;
    MapCompleteIff(E, maps, LowerAlts(alts));
    forall i: nat, j: nat | i <= |E.s| && LangAlts(E, alts, i, j)
      ensures i < j <= |E.s| && InMap(bits, E.s[i])
    {
      var st := St(i, map[]);
      var e := AltsComplete(E, alts, st, j);
      AltsEndsKept(E, alts, st);
      assert e in ChoiceEnds(E, LowerAlts(alts), st) && e.pos == j;
      ChoiceLed(E, LowerAlts(alts), st, e);
      ForwardAlts(E, alts, i, j);
      assert ChoiceStarts(E, LowerAlts(alts), E.s[i]);
      assert ChoiceBits(E.tab, maps, E.opt.caseless, LowerAlts(alts), E.s[i]);
    }
    forall i: nat, veto: int | i < |E.s| && !InMap(bits, E.s[i])
      ensures AttemptTrack(E, alts, veto, i).closed == {}
    {
      assert !ChoiceBits(E.tab, maps, E.opt.caseless, LowerAlts(alts), E.s[i]);
      assert !ChoiceStarts(E, LowerAlts(alts), E.s[i]);
      ChoiceQuiet(E, LowerAlts(alts), i);
      AttemptStops(E, alts, veto, i);
    }
  }

  /**
   * Nothing is studied when the start of a match is already tied down. The map has exactly the
   * bits of the items looked at.
   */
  method PcreStudy(re: Pcre, maps: Maps, ghost alts: Alts, ghost forced: bool) returns (r: Option<seq<byte>>)
    requires Describes(re, alts, forced) && Agree(re.tab, maps) && ValidChoice(LowerAlts(alts))
    ensures r.Some? <==> !re.anchored && re.first.None? && !re.startline && KnownChoice(LowerAlts(alts))
    ensures r.Some? ==> |r.value| == 32 && forall x: byte :: InMap(r.value, x) <==> ChoiceBits(re.tab, maps, re.opt.caseless, LowerAlts(alts), x)
    ensures r.Some? && MapComplete(re.tab, maps, re.opt.caseless, LowerAlts(alts)) ==> RightMap(re, alts, r.value)
  {
    hide KnownChoice, ChoiceBits, ChoiceNotSpace, MapComplete, Describes;
    Exec.WhatDescribes(re, alts, forced);
    if re.anchored || re.first.Some? || re.startline { return None; }
    var bits := new byte[32](_ => 0);
    WholeBracket(alts);
    ghost var a, root, k := LowerAlts(alts), LowerPattern(alts), Machine.Top(Empty, -1);
    ghost var blank := bits[..];
    var known := SetStartBits(re.code, 0, bits, re.opt.caseless, re.tab, maps, OP_BRA, a, root, k);
    if !known { return None; }
    r := Some(bits[..]);
    BlankMap(blank);
    assert MapSet(bits[..]) == MapSet(blank) + ChoiceSet(re.tab, maps, re.opt.caseless, a);
    SameBits(bits[..], re.tab, maps, re.opt.caseless, a);
    if MapComplete(re.tab, maps, re.opt.caseless, a) { MapIsRight(re, maps, alts, r.value); }
  }

  lemma BlankMap(bits: seq<byte>)
    requires |bits| == 32 && forall i :: 0 <= i < 32 ==> bits[i] == 0
    ensures MapSet(bits) == iset{}
  {
    hide BitSet;
    forall x: byte ensures !InMap(bits, x) {
      var i, n := x / 8, x % 8;
      ZeroSet(n);
      assert bits[i] == 0;
    }
  }

  lemma SameBits(bits: seq<byte>, tab: TableSet, maps: Maps, caseless: bool, a: Choice)
    requires |bits| == 32 && maps.Valid() && ValidChoice(a) && MapSet(bits) == ChoiceSet(tab, maps, caseless, a)
    ensures forall x: byte :: InMap(bits, x) <==> ChoiceBits(tab, maps, caseless, a, x)
  {
    hide InMap, ChoiceBits;
    forall x: byte ensures InMap(bits, x) <==> ChoiceBits(tab, maps, caseless, a, x) {
      assert InMap(bits, x) <==> x in MapSet(bits);
      assert ChoiceBits(tab, maps, caseless, a, x) <==> x in ChoiceSet(tab, maps, caseless, a);
    }
  }

  /** pcre_exec may rely on the map, whatever the subject and the options of the call. */
  ghost predicate RightMap(re: Pcre, alts: Alts, bits: seq<byte>)
    requires ValidAlts(alts)
  {
    forall E: Env :: E.tab == re.tab && E.opt == re.opt ==> Exec.StudyOk(E, alts, bits)
  }

  lemma MapIsRight(re: Pcre, maps: Maps, alts: Alts, bits: seq<byte>)
    requires Agree(re.tab, maps) && ValidAlts(alts) && |bits| == 32
    requires ValidChoice(LowerAlts(alts)) && KnownChoice(LowerAlts(alts)) && MapComplete(re.tab, maps, re.opt.caseless, LowerAlts(alts))
    requires forall x: byte :: ChoiceBits(re.tab, maps, re.opt.caseless, LowerAlts(alts), x) ==> InMap(bits, x)
    ensures RightMap(re, alts, bits)
  {
    forall E: Env | E.tab == re.tab && E.opt == re.opt ensures Exec.StudyOk(E, alts, bits) {
      StudySound(E, maps, alts, bits);
    }
  }

  /** `\S` is studied, matches VT, and VT is not in the map. */
  lemma NotSpaceMissed(E: Env, maps: Maps)
    requires Agree(E.tab, maps) && E.s == [VT]
    ensures var alts := Last(Cons(Piece(Single(Type(NotSpace)), Once), Nil));
            && ValidAlts(alts) && LangAlts(E, alts, 0, 1)
            && ValidChoice(LowerAlts(alts)) && KnownChoice(LowerAlts(alts))
            && !ChoiceBits(E.tab, maps, E.opt.caseless, LowerAlts(alts), VT)
  {
    var b := Cons(Piece(Single(Type(NotSpace)), Once), Nil);
    assert ValidBranch(b);
    assert LangTest(E, Type(NotSpace), 1, 0, 1) && Allowed(Once, 1);
    assert LangPiece(E, b.hd, 0, 1) && LangBranch(E, Nil, 1, 1);
    assert LowerBranch(Nil) == Empty && LowerPiece(b.hd) == Unit(One(Type(NotSpace)));
    assert LowerBranch(b) == Then(One(Type(NotSpace)), Empty);
    var c := Then(One(Type(NotSpace)), Empty);
    assert LowerAlts(Last(b)) == Only(c) && ValidCode(c);
    assert NodeStep(c.hd).Stop? && !NodeBits(E.tab, maps, E.opt.caseless, c.hd, VT);
    assert KnownCode(c) && !CodeBits(E.tab, maps, E.opt.caseless, c, VT);
  }
}
