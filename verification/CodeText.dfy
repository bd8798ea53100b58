/**
 * The text of compiled items as the compiler puts it together: cut where it writes operands, as
 * copies of a group, and as alternatives whose links still point backwards.
 */
module CodeText {
  import opened Wrappers
  import opened Bytes
  import opened Opcodes
  import opened Subject
  import opened Regex
  import opened Program
  import opened Lower
  import opened FirstPass
  import Machine
  import Layout

  // ----- items -----

  /** The repeat of one byte or type from its mandatory part on, cut where the compiler writes the operand. */
  lemma SingleText(t: Test, min: nat, max: int, lazy: bool)
    requires t.Valid() && !t.Class? && Rep(min, max, lazy).Valid()
    ensures ValidCode(LowerSingle(t, min, max, lazy)) && ValidCode(LowerRest(t, min, max, lazy))
    ensures var s, c := EncCode(LowerSingle(t, min, max, lazy)), [Operand(t)];
            if max == 0 then s == []
            else if min == 0 || (min == 1 && max < 0) then s == ByteRepeat(RepeatBase(t), min, max, lazy, false) + c
            else s == SingleHead(t, min) + c + EncCode(LowerRest(t, min, max, lazy))
  {
    RestValid(t, min, max, lazy);
    var c := LowerSingle(t, min, max, lazy);
    if c.Then? {
      assert EncCode(c) == EncNode(c.hd) + EncCode(c.tl);
      if !(min == 0 || (min == 1 && max < 0)) {
        assert c.tl == LowerRest(t, min, max, lazy);
        assert EncNode(c.hd) == SingleHead(t, min) + [Operand(t)];
      } else {
        assert EncCode(c.tl) == [];
      }
    }
  }

  /** The mandatory part of a repeat, without its operand. */
  function SingleHead(t: Test, min: nat): seq<byte>
    requires !t.Class? && min > 0
  {
    if min > 1 then [RepeatBase(t) + 8] + Put(min)
    else if t.Char? then [OP_CHARS, 1] else if t.NotChar? then [OP_NOT] else []
  }

  lemma RestText(t: Test, q: Quant)
    requires t.Valid() && !t.Class? && q.Valid() && q.Rep?
    ensures ValidCode(LowerRest(t, q.min, q.max, q.lazy))
    ensures EncCode(LowerRest(t, q.min, q.max, q.lazy)) ==
            if q.max < 0 then [RepeatBase(t) + LazyBit(q.lazy), Operand(t)]
            else if q.max > q.min then [RepeatBase(t) + 6 + LazyBit(q.lazy)] + Put(q.max - q.min) + [Operand(t)]
            else []
  {
  }

  lemma LitText(run: seq<byte>, q: Quant)
    requires 1 <= |run| <= MAXLIT && q.Valid() && q.Rep?
    ensures ValidCode(LowerLit(run, q))
    ensures var n, c := |run| - 1, Char(run[|run| - 1]);
            ValidCode(LowerSingle(c, q.min, q.max, q.lazy)) && ValidCode(LowerRest(c, q.min, q.max, q.lazy)) &&
            EncCode(LowerLit(run, q)) ==
            if q.min == 1 && q.max >= 0 then [OP_CHARS, n + 1] + run[..n] + [run[n]] + EncCode(LowerRest(c, 1, q.max, q.lazy))
            else (if n == 0 then [] else [OP_CHARS, n] + run[..n]) + EncCode(LowerSingle(c, q.min, q.max, q.lazy))
  {
    var n, c := |run| - 1, Char(run[|run| - 1]);
    LitValid(run, q);
    RestValid(c, q.min, q.max, q.lazy);
    assert ValidCode(LowerSingle(c, q.min, q.max, q.lazy));
    assert run == run[..n] + [run[n]];
    var code := LowerLit(run, q);
    if q.min == 1 && q.max >= 0 {
      assert EncCode(code) == EncNode(Chars(run)) + EncCode(code.tl);
      assert [OP_CHARS, n + 1] + run == [OP_CHARS, n + 1] + run[..n] + [run[n]];
    } else if n > 0 {
      assert EncCode(code) == EncNode(Chars(run[..n])) + EncCode(code.tl);
    }
  }

  /** What is left of a run whose last byte is taken off. */
  function LitHead(run: seq<byte>): seq<byte>
    requires 1 <= |run| <= MAXLIT
  {
    if |run| == 1 then [] else [OP_CHARS, |run| - 1] + run[..|run| - 1]
  }

  /** The same text by the pieces the compiler writes, which fit in what the first pass allows. */
  lemma LitParts(run: seq<byte>, q: Quant)
    requires 1 <= |run| <= MAXLIT && q.Valid() && q.Rep?
    ensures ValidCode(LowerLit(run, q))
    ensures var c, head := Char(run[|run| - 1]), LitHead(run);
            && ValidCode(LowerSingle(c, q.min, q.max, q.lazy)) && ValidCode(LowerRest(c, q.min, q.max, q.lazy))
            && EncCode(LowerLit(run, q)) == (
                if q.min == 1 && q.max >= 0 && head != []
                then head[1 := head[1] + 1] + [c.c] + EncCode(LowerRest(c, q.min, q.max, q.lazy))
                else head + EncCode(LowerSingle(c, q.min, q.max, q.lazy)))
            && |EncCode(LowerLit(run, q))| <= 2 + |run| + ByteQuantLength(q)
  {
    hide EncCode, LowerLit, LowerSingle, LowerRest;
    LitText(run, q);
    LitFits(run, q);
    var n := |run| - 1;
    SingleText(Char(run[n]), q.min, q.max, q.lazy);
    if n > 0 {
      assert LitHead(run)[1 := n + 1] == [OP_CHARS, n + 1] + run[..n];
    }
  }

  // ----- copies of a group -----

  function Copies(g: seq<byte>, n: nat): seq<byte> {
    if n == 0 then [] else g + Copies(g, n - 1)
  }

  /** `r` optional copies, nested; `zero` is the opcode before each. */
  function Optional(g: seq<byte>, r: nat, zero: byte): seq<byte> {
    if r == 0 then [] else if r == 1 then [zero] + g else
    var inner := g + Optional(g, r - 1, zero);
    [zero, OP_BRA] + Put(3 + |inner|) + inner + [OP_KET] + Put(3 + |inner|)
  }

  /** `m` nesting brackets that are still open, each with its copy; the links chain them together. */
  function Pending(g: seq<byte>, m: nat, zero: byte): seq<byte> {
    if m == 0 then [] else
    Pending(g, m - 1, zero) + [zero, OP_BRA] + Put(if m == 1 then 0 else |g| + 4) + g
  }

  lemma {:induction false} CopiesSnoc(g: seq<byte>, n: nat)
    ensures Copies(g, n) + g == Copies(g, n + 1)
  {
    if n > 0 {
      CopiesSnoc(g, n - 1);
      Assoc(g, Copies(g, n - 1), g);
    }
  }

  lemma UnitText(n: Node)
    requires ValidNode(n)
    ensures ValidCode(Unit(n)) && EncCode(Unit(n)) == EncNode(n)
  {
  }

  lemma EmptyText()
    ensures EncCode(Empty) == []
  {
  }

  lemma ThenText(n: Node, c: Code)
    requires ValidNode(n) && ValidCode(c)
    ensures ValidCode(Then(n, c)) && EncCode(Then(n, c)) == EncNode(n) + EncCode(c)
  {
  }

  lemma WrapText(c: Code)
    requires ValidCode(c)
    ensures ValidNode(Bra(0, Only(c), Plain))
    ensures EncNode(Bra(0, Only(c), Plain)) == [OP_BRA] + Put(3 + |EncCode(c)|) + EncCode(c) + [OP_KET] + Put(3 + |EncCode(c)|)
  {
    assert ValidChoice(Only(c)) && EncMore(Only(c)) == [];
  }

  /** One more level of nesting. */
  lemma NestingText(plain: Node, rest: Code, lazy: bool)
    requires ValidNode(plain) && ValidCode(rest)
    ensures var inner, n := EncNode(plain) + EncCode(rest), Zero(Bra(0, Only(Then(plain, rest)), Plain), lazy);
            && ValidNode(n)
            && EncCode(Unit(n)) == [OP_BRAZERO + LazyBit(lazy), OP_BRA] + Put(3 + |inner|) + inner + [OP_KET] + Put(3 + |inner|)
  {
    hide EncNode, EncCode;
    ThenText(plain, rest);
    var wrap := Bra(0, Only(Then(plain, rest)), Plain);
    WrapText(Then(plain, rest));
    ZeroEnc(wrap, lazy);
    UnitText(Zero(wrap, lazy));
  }

  lemma {:induction false} OptionalText(cap: nat, a: Choice, r: nat, lazy: bool)
    requires cap < 0x1_0000 && ValidChoice(a) && Labelled(cap, a)
    ensures ValidCode(LowerRep(cap, a, 0, r, lazy))
    ensures EncCode(LowerRep(cap, a, 0, r, lazy)) == Optional(EncNode(Bra(cap, a, Plain)), r, OP_BRAZERO + LazyBit(lazy))
    decreases r
  {
    hide EncNode, EncCode, ValidChoice;
    RepValid(cap, a, 0, r, lazy);
    var plain := Bra(cap, a, Plain);
    assert ValidNode(plain);
    if r == 0 {
      EmptyText();
    } else if r == 1 {
      UnitText(Zero(plain, lazy));
      ZeroEnc(plain, lazy);
    } else {
      OptionalText(cap, a, r - 1, lazy);
      NestingText(plain, LowerRep(cap, a, 0, r - 1, lazy), lazy);
    }
  }

  lemma ZeroEnc(g: Node, lazy: bool)
    requires g.Bra? && ValidNode(g)
    ensures EncNode(Zero(g, lazy)) == [OP_BRAZERO + LazyBit(lazy)] + EncNode(g)
  {
  }

  lemma {:induction false} RepText(cap: nat, a: Choice, min: nat, max: int, lazy: bool)
    requires max >= -1 && (max >= 0 ==> min <= max) && cap < 0x1_0000 && ValidChoice(a) && Labelled(cap, a)
    ensures ValidCode(LowerRep(cap, a, min, max, lazy))
    ensures var g, loop, z := EncNode(Bra(cap, a, Plain)), EncNode(Bra(cap, a, Loop(lazy))), OP_BRAZERO + LazyBit(lazy);
            EncCode(LowerRep(cap, a, min, max, lazy)) ==
            if max >= 0 then Copies(g, min) + Optional(g, max - min, z)
            else if min == 0 then [z] + loop else Copies(g, min - 1) + loop
    decreases min
  {
    hide EncNode, EncCode, Optional, ValidChoice;
    RepValid(cap, a, min, max, lazy);
    var plain, loop := Bra(cap, a, Plain), Bra(cap, a, Loop(lazy));
    assert ValidNode(plain) && ValidNode(loop);
    if max < 0 && min <= 1 {
      UnitText(loop);
      UnitText(Zero(loop, lazy));
      ZeroEnc(loop, lazy);
    } else if min == 0 {
      OptionalText(cap, a, max, lazy);
    } else {
      RepText(cap, a, min - 1, Dec(max), lazy);
      var rest := LowerRep(cap, a, min - 1, Dec(max), lazy);
      ThenText(plain, rest);
    }
  }

  /** Only the opcode of its ket tells a repeated group from a plain one. */
  lemma LoopText(cap: nat, a: Choice, lazy: bool)
    requires cap < 0x1_0000 && ValidChoice(a) && Labelled(cap, a)
    ensures var g, n := EncNode(Bra(cap, a, Plain)), |EncNode(Bra(cap, a, Plain))| - 3;
            n > 0 && g[n] == OP_KET && EncNode(Bra(cap, a, Loop(lazy))) == g[n := OP_KETRMAX + LazyBit(lazy)]
  {
    var body := EncChoice(BraByte(cap), a);
    assert EncNode(Bra(cap, a, Plain)) == body + [OP_KET] + Put(|body|);
    assert EncNode(Bra(cap, a, Loop(lazy))) == body + [KetByte(Loop(lazy))] + Put(|body|);
  }

  // ----- alternatives, while their bracket is open and once it is closed -----

  /** While the bracket is open each link holds the length of the alternative before it. */
  function Opened(op: byte, bodies: seq<seq<byte>>): seq<byte>
    requires |bodies| > 0
    decreases |bodies|
  {
    var n := |bodies| - 1;
    if n == 0 then [op] + Put(0) + bodies[0]
    else Opened(op, bodies[..n]) + [OP_ALT] + Put(3 + |bodies[n - 1]|) + bodies[n]
  }

  /** Once it is closed each link holds the length of its own alternative. */
  function Closed(op: byte, bodies: seq<seq<byte>>): seq<byte>
    decreases |bodies|
  {
    if bodies == [] then [] else [op] + Put(3 + |bodies[0]|) + bodies[0] + Closed(OP_ALT, bodies[1..])
  }

  function Bodies(a: Choice): seq<seq<byte>>
    requires ValidChoice(a)
    decreases a
  {
    [EncCode(a.c)] + if a.Or? then Bodies(a.more) else []
  }

  lemma {:induction false} ClosedText(op: byte, a: Choice)
    requires ValidChoice(a)
    ensures Closed(op, Bodies(a)) == EncChoice(op, a)
    decreases a
  {
    if a.Or? { ClosedText(OP_ALT, a.more); }
  }

  /** The text before the last open alternative. */
  function Front(op: byte, bodies: seq<seq<byte>>): seq<byte>
    requires |bodies| > 0
  {
    if |bodies| == 1 then [] else Opened(op, bodies[..|bodies| - 1])
  }

  /** The link of the last open alternative. */
  function Back(bodies: seq<seq<byte>>): nat
    requires |bodies| > 0
  {
    if |bodies| == 1 then 0 else 3 + |bodies[|bodies| - 2]|
  }

  lemma BackFits(op: byte, bodies: seq<seq<byte>>)
    requires |bodies| > 0
    ensures Back(bodies) <= |Front(op, bodies)|
    ensures |Opened(op, bodies)| == |Front(op, bodies)| + 3 + |bodies[|bodies| - 1]|
  {
    OpenedIs(op, bodies);
    if |bodies| > 1 {
      OpenedIs(op, bodies[..|bodies| - 1]);
      hide Opened;
    }
  }

  lemma NoneClosed(x: seq<byte>)
    ensures x + Closed(OP_ALT, []) == x
  {
  }

  /** The link of alternative `n` leads back to the one before it. */
  lemma FrontBack(op: byte, bodies: seq<seq<byte>>, n: nat)
    requires 0 < n <= |bodies|
    ensures bodies[..n][..n - 1] == bodies[..n - 1] && bodies[..n] + bodies[n..] == bodies
    ensures [bodies[n - 1]] + bodies[n..] == bodies[n - 1..] && bodies[..n][n - 1] == bodies[n - 1]
    ensures if n == 1 then Back(bodies[..n]) == 0
            else Back(bodies[..n]) == 3 + |bodies[n - 2]| && |Front(op, bodies[..n])| == |Front(op, bodies[..n - 1])| + Back(bodies[..n])
  {
  }

  lemma OpenParts(pre: seq<byte>, op: byte, bodies: seq<seq<byte>>, rest: seq<byte>)
    requires |bodies| > 0
    ensures var n := |bodies| - 1;
            pre + Opened(op, bodies) + rest ==
            (pre + Front(op, bodies) + [if n == 0 then op else OP_ALT]) + Put(Back(bodies)) + (bodies[n] + rest)
  {
    OpenedIs(op, bodies);
    hide Opened, Front, Back, Put;
    var n := |bodies| - 1;
    Regroup4(pre, Front(op, bodies), [if n == 0 then op else OP_ALT], Put(Back(bodies)), bodies[n], rest);
  }

  lemma OpenedIs(op: byte, bodies: seq<seq<byte>>)
    requires |bodies| > 0
    ensures var n := |bodies| - 1;
            Opened(op, bodies) == Front(op, bodies) + [if n == 0 then op else OP_ALT] + Put(Back(bodies)) + bodies[n]
  {
    if |bodies| == 1 { assert [] + [op] == [op]; }
  }

  lemma Regroup4(a: seq<byte>, b: seq<byte>, c: seq<byte>, d: seq<byte>, e: seq<byte>, f: seq<byte>)
    ensures a + (b + c + d + e) + f == (a + b + c) + d + (e + f)
  {
  }

  /** Setting the last open link closes that alternative. */
  lemma CloseParts(pre: seq<byte>, op: byte, bodies: seq<seq<byte>>, more: seq<seq<byte>>)
    requires |bodies| > 0
    ensures var n := |bodies| - 1;
            (pre + Front(op, bodies) + [if n == 0 then op else OP_ALT]) + Put(3 + |bodies[n]|) + (bodies[n] + Closed(OP_ALT, more)) ==
            if n == 0 then pre + Closed(op, bodies + more) else pre + Opened(op, bodies[..n]) + Closed(OP_ALT, [bodies[n]] + more)
  {
    hide Put;
    var n := |bodies| - 1;
    assert (bodies + more)[1..] == bodies[1..] + more;
    assert n == 0 ==> bodies[1..] + more == more;
    assert ([bodies[n]] + more)[1..] == more;
  }

  lemma OpenMore(op: byte, bodies: seq<seq<byte>>)
    requires |bodies| > 0
    ensures Opened(op, bodies) + ([OP_ALT] + Put(3 + |bodies[|bodies| - 1]|)) == Opened(op, bodies + [[]])
  {
  }

  lemma OpenExtend(op: byte, done: seq<seq<byte>>, x: seq<byte>, more: seq<byte>)
    ensures Opened(op, done + [x]) + more == Opened(op, done + [x + more])
  {
  }

  /** A group at the end of the code, seen as if the code ended there. */
  lemma AtGroup(pre: seq<byte>, g: Node)
    requires g.Bra? && ValidNode(g)
    ensures var k := Machine.Top(Empty, -1);
            Layout.AltsAt(pre + EncNode(g) + [OP_END], |pre|, BraByte(g.cap), g.alts, g, k) && Layout.Text(k) == [OP_END]
  {
    hide EncNode;
    var k, code := Machine.Top(Empty, -1), pre + EncNode(g) + [OP_END];
    EmptyText();
    assert Layout.Text(k) == [OP_END];
    assert code[|code| - 1..] == [OP_END];
    assert code[|pre|..] == EncNode(g) + [OP_END];
    Layout.AtBracket(code, g, k);
  }

  lemma PendingStep(pre: seq<byte>, g: seq<byte>, m: nat, zero: byte)
    ensures var head := [zero, OP_BRA] + Put(if m == 0 then 0 else |g| + 4);
            pre + Pending(g, m, zero) + (head + g) == pre + Pending(g, m + 1, zero)
  {
  }

  lemma PendingNone(g: seq<byte>, zero: byte)
    ensures Pending(g, 0, zero) == []
  {
  }

  lemma PendingSize(g: seq<byte>, m: nat, zero: byte)
    requires m > 0
    ensures |Pending(g, m, zero)| == |Pending(g, m - 1, zero)| + 4 + |g|
  {
  }

  lemma {:induction false} PendingGrows(g: seq<byte>, k: nat, m: nat, zero: byte)
    requires k < m
    ensures |Pending(g, k, zero)| + 4 + |g| <= |Pending(g, m, zero)|
  {
    PendingSize(g, m, zero);
    if k < m - 1 { PendingGrows(g, k, m - 1, zero); }
  }

  lemma OptionalGrows(g: seq<byte>, r: nat, zero: byte)
    requires r > 0
    ensures |Optional(g, r + 1, zero)| == |Optional(g, r, zero)| + |g| + 7
  {
  }

  lemma {:induction false} NestSize(g: seq<byte>, m: nat, r: nat, zero: byte)
    requires r > 0
    ensures |Pending(g, m, zero)| + |Optional(g, r, zero)| + 3 * m == |Optional(g, m + r, zero)|
    decreases m
  {
    hide Pending, Optional;
    if m == 0 {
      PendingNone(g, zero);
    } else {
      NestSize(g, m - 1, r + 1, zero);
      OptionalGrows(g, r, zero);
      PendingSize(g, m, zero);
    }
  }

  lemma FirstPending(g: seq<byte>, zero: byte)
    ensures Pending(g, 1, zero) == [zero, OP_BRA] + Put(0) + g
  {
  }

  lemma NoCopies(g: seq<byte>, zero: byte)
    ensures Copies(g, 0) == [] && Optional(g, 0, zero) == []
  {
  }

  lemma OptionalSome(g: seq<byte>, r: nat, zero: byte)
    requires r > 0
    ensures |Optional(g, r, zero)| > |g|
  {
  }

  lemma {:induction false} CopiesSize(g: seq<byte>, n: nat)
    ensures |Copies(g, n)| == n * |g|
  {
    if n > 0 { CopiesSize(g, n - 1); }
  }

  /** After the first copy, `n` more. */
  lemma CopiesFront(pre: seq<byte>, g: seq<byte>, n: nat)
    ensures pre + g + Copies(g, n) == pre + Copies(g, n + 1) == pre + Copies(g, n) + g
  {
    CopiesSnoc(g, n);
  }

  lemma OptionalOne(g: seq<byte>, zero: byte)
    ensures Optional(g, 1, zero) == [zero] + g
  {
  }

  /** Where the link of the innermost pending bracket is. */
  ghost function Chained(pre: seq<byte>, g: seq<byte>, m: nat, zero: byte): Option<nat> {
    if m == 0 then None else Some(|pre| + |Pending(g, m - 1, zero)| + 2)
  }

  lemma NoChain(pre: seq<byte>, g: seq<byte>, zero: byte)
    ensures Chained(pre, g, 0, zero) == None
  {
  }

  /** The link of a pending bracket leads to the link of the one around it. */
  lemma ChainedBack(pre: seq<byte>, g: seq<byte>, m: nat, zero: byte)
    requires m > 0
    ensures var link := |pre| + |Pending(g, m - 1, zero)| + 2;
            && Chained(pre, g, m, zero) == Some(link)
            && Chained(pre, g, m - 1, zero) == if m == 1 then None else Some(link - (|g| + 4))
  {
  }

  lemma PendingText(pre: seq<byte>, g: seq<byte>, m: nat, r: nat, zero: byte)
    requires m > 0
    ensures pre + Pending(g, m, zero) + Optional(g, r, zero) ==
            pre + Pending(g, m - 1, zero) + [zero, OP_BRA] + Put(if m == 1 then 0 else |g| + 4) + (g + Optional(g, r, zero))
  {
  }

  lemma KetLast(head: seq<byte>, inner: seq<byte>, d: nat)
    ensures head + (inner + ([OP_KET] + Put(d))) == head + inner + [OP_KET] + Put(d)
  {
  }

  lemma OptionalStep(head: seq<byte>, g: seq<byte>, r: nat, zero: byte)
    requires r > 0
    ensures var inner := g + Optional(g, r, zero);
            head + [zero, OP_BRA] + Put(3 + |inner|) + inner + [OP_KET] + Put(3 + |inner|) == head + Optional(g, r + 1, zero)
  {
  }

  lemma Spare(i: nat, n: nat, len: nat)
    requires i < n
    ensures i * len + len == (i + 1) * len <= n * len
  {
  }

  // ----- bodies of a pattern's alternatives -----

  /** The code of each alternative, before a group number is put in front of the first. */
  function BodiesOf(alts: Alts): seq<seq<byte>>
    requires ValidAlts(alts) && ValidChoice(LowerAlts(alts))
  {
    Bodies(LowerAlts(alts))
  }

  /** The OP_BRANUMBER item that a group number too large for the opcode needs. */
  function Label(cap: nat): seq<byte> {
    if cap > EXTRACT_BASIC_MAX then [OP_BRANUMBER] + Put(cap) else []
  }

  lemma TaggedBodies(cap: nat, a: Choice)
    requires ValidChoice(a) && cap < 0x1_0000
    ensures ValidChoice(Tagged(cap, a)) && Labelled(cap, Tagged(cap, a))
    ensures Bodies(Tagged(cap, a)) == [Label(cap) + Bodies(a)[0]] + Bodies(a)[1..]
  {
    TaggedSize(cap, a);
    var t := Tagged(cap, a);
    if cap > EXTRACT_BASIC_MAX {
      assert EncCode(t.c) == EncNode(Number(cap)) + EncCode(a.c);
      Layout.NumberBytes(cap);
    }
    assert Bodies(t)[1..] == Bodies(a)[1..];
    assert Bodies(t)[0] == Label(cap) + Bodies(a)[0];
    assert Bodies(t) == [Bodies(t)[0]] + Bodies(t)[1..];
  }

  /** A closed bracket with its ket is the group. */
  lemma GroupBytes(cap: nat, a: Choice)
    requires cap < 0x1_0000 && ValidChoice(a) && Labelled(cap, a)
    ensures ValidNode(Bra(cap, a, Plain))
    ensures var c := Closed(BraByte(cap), Bodies(a)); EncNode(Bra(cap, a, Plain)) == c + [OP_KET] + Put(|c|)
  {
    ClosedText(BraByte(cap), a);
    var body := EncChoice(BraByte(cap), a);
    assert EncNode(Bra(cap, a, Plain)) == body + [OP_KET] + Put(|body|);
  }

  lemma NilText()
    ensures EncCode(LowerBranch(Nil)) == []
  {
  }

  lemma PlainText(p: Piece)
    requires (p.a.Circ? || p.a.Doll?) && p.q.Valid()
    ensures ValidCode(LowerPiece(p)) && EncCode(LowerPiece(p)) == [if p.a.Circ? then OP_CIRC else OP_DOLL]
  {
  }

  /** Room for a test and what follows it, by the first pass's count. */
  lemma SingleRoom(p: Piece)
    requires p.a.Single? && ValidAtom(p.a) && p.q.Valid()
    ensures if p.a.t.Class? then |EncTest(p.a.t)| == 33 && PieceLength(p) == 33 + ClassQuantLength(p.q)
            else 1 <= |EncTest(p.a.t)| && |EncTest(p.a.t)| + ByteQuantLength(p.q) <= PieceLength(p)
    ensures PieceLength(p) >= |EncTest(p.a.t)| && (p.q.Rep? ==> PieceLength(p) >= 2)
    ensures p.q.Once? ==> LowerPiece(p) == Unit(One(p.a.t))
    ensures p.q.Rep? ==> LowerPiece(p) == LowerTest(p.a.t, p.q)
  {
  }

  lemma OneText(t: Test)
    requires t.Valid() && !t.Char?
    ensures EncNode(One(t)) == EncTest(t)
  {
  }

  lemma BranchText(b: Branch)
    requires ValidBranch(b) && b.Cons?
    ensures ValidCode(LowerBranch(b)) && ValidCode(LowerBranch(b.tl)) && ValidCode(LowerPiece(b.hd))
    ensures EncCode(LowerBranch(b)) == EncCode(LowerPiece(b.hd)) + EncCode(LowerBranch(b.tl))
  {
    PieceValid(b.hd);
    BranchValid(b.tl);
    BranchValid(b);
    EncAppend(LowerPiece(b.hd), LowerBranch(b.tl));
  }

  lemma BodiesStep(alts: Alts)
    requires ValidAlts(alts)
    ensures ValidChoice(LowerAlts(alts)) && ValidCode(LowerBranch(alts.b))
    ensures BodiesOf(alts)[0] == EncCode(LowerBranch(alts.b))
    ensures if alts.Alt? then ValidChoice(LowerAlts(alts.more)) && BodiesOf(alts)[1..] == BodiesOf(alts.more) else BodiesOf(alts)[1..] == []
    ensures |BodiesOf(alts)| > 0
  {
    AltsValid(alts);
  }

  /** The bytes of a pattern piece that is a group. */
  lemma GroupPieceText(p: Piece)
    requires ValidAtom(p.a) && p.q.Valid() && p.a.Group?
    ensures ValidCode(LowerPiece(p)) && ValidChoice(LowerAlts(p.a.alts))
    ensures var a := Tagged(p.a.cap, LowerAlts(p.a.alts));
            && ValidChoice(a) && Labelled(p.a.cap, a)
            && (p.q.Rep? ==> ValidCode(LowerRep(p.a.cap, a, p.q.min, p.q.max, p.q.lazy)))
            && |EncNode(Bra(p.a.cap, a, Plain))| > 3
            && EncCode(LowerPiece(p)) ==
               if p.q.Once? then EncNode(Bra(p.a.cap, a, Plain)) else EncCode(LowerRep(p.a.cap, a, p.q.min, p.q.max, p.q.lazy))
  {
    hide LowerAlts, LowerRep, EncCode, EncNode, EncChoice;
    PieceValid(p);
    AltsValid(p.a.alts);
    TaggedSize(p.a.cap, LowerAlts(p.a.alts));
    var plain := Bra(p.a.cap, Tagged(p.a.cap, LowerAlts(p.a.alts)), Plain);
    if p.q.Rep? { RepValid(p.a.cap, plain.alts, p.q.min, p.q.max, p.q.lazy); }
    UnitText(plain);
    BraSize(p.a.cap, Tagged(p.a.cap, LowerAlts(p.a.alts)), Plain);
  }

  /** The bodies so far, the part of the current one that is in place, and those still to come. */
  function Progress(done: seq<seq<byte>>, x: seq<byte>, rest: Alts): seq<seq<byte>>
    requires ValidAlts(rest) && ValidChoice(LowerAlts(rest))
  {
    done + [x + BodiesOf(rest)[0]] + BodiesOf(rest)[1..]
  }

  lemma ProgressFirst(cap: nat, alts: Alts)
    requires ValidAlts(alts) && cap < 0x1_0000
    ensures ValidChoice(LowerAlts(alts)) && ValidChoice(Tagged(cap, LowerAlts(alts))) && Labelled(cap, Tagged(cap, LowerAlts(alts)))
    ensures Progress([], Label(cap), alts) == Bodies(Tagged(cap, LowerAlts(alts)))
  {
    AltsValid(alts);
    TaggedBodies(cap, LowerAlts(alts));
  }

  lemma ProgressStep(done: seq<seq<byte>>, x: seq<byte>, rest: Alts)
    requires ValidAlts(rest)
    ensures ValidChoice(LowerAlts(rest)) && ValidCode(LowerBranch(rest.b))
    ensures var body := x + EncCode(LowerBranch(rest.b));
            if rest.Alt? then ValidChoice(LowerAlts(rest.more)) && Progress(done, x, rest) == Progress(done + [body], [], rest.more)
            else Progress(done, x, rest) == done + [body]
  {
    BodiesStep(rest);
    if rest.Alt? {
      BodiesStep(rest.more);
      hide BodiesOf;
      MoveOn(done, x + EncCode(LowerBranch(rest.b)), BodiesOf(rest.more));
    }
  }

  lemma MoveOn(done: seq<seq<byte>>, body: seq<byte>, more: seq<seq<byte>>)
    requires |more| > 0
    ensures done + [body] + more == (done + [body]) + [[] + more[0]] + more[1..]
  {
    var none: seq<byte> := [];
    assert none + more[0] == more[0];
  }

  /** The header of the last open alternative tells whether it is the first. */
  lemma HeaderByte(pre: seq<byte>, op: byte, bodies: seq<seq<byte>>)
    requires |bodies| > 0
    ensures var at, t := |pre| + |Front(op, bodies)|, pre + Opened(op, bodies);
            at < |t| && t[at] == if |bodies| == 1 then op else OP_ALT
  {
  }

  lemma FrontSame(op: byte, done: seq<seq<byte>>, x: seq<byte>, y: seq<byte>)
    ensures Front(op, done + [x]) == Front(op, done + [y])
  {
  }

  /** The header of a bracket that has just been opened. */
  lemma OpenFirst(op: byte, x: seq<byte>)
    ensures Opened(op, [x]) == [op] + Put(0) + x && Front(op, [x]) == []
  {
  }

  lemma FrontNext(op: byte, bodies: seq<seq<byte>>)
    requires |bodies| > 0
    ensures Front(op, bodies + [[]]) == Opened(op, bodies)
  {
  }
}
