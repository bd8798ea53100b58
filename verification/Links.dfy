/**
 * The links of compiled code: from every bracket they visit its alternatives in order and end at
 * its own ket, whose link is the distance back to the bracket.
 */
module Links {
  import opened Wrappers
  import opened Bytes
  import opened Opcodes
  import opened Regex
  import opened Program
  import opened Lower
  import opened CodeText
  import opened Correct

  /** Every place that following links from `at` comes to, up to the first that is not an alternative. */
  function Walk(code: seq<byte>, at: nat): seq<nat>
    decreases |code| - at
  {
    if at + 2 >= |code| then [at] else
    var next := at + Get(code, at + 1);
    if next <= at || next >= |code| then [at]
    else if code[next] == OP_ALT then [at] + Walk(code, next) else [at, next]
  }

  /** Where the headers of the alternatives are, when the first one is at `at`. */
  function Headers(at: nat, a: Choice): seq<nat>
    requires ValidChoice(a)
    decreases a
  {
    [at] + if a.Or? then Headers(at + 3 + |EncCode(a.c)|, a.more) else []
  }

  ghost predicate NodeLinked(code: seq<byte>, at: nat, n: Node)
    requires ValidNode(n)
    decreases n, 2
  {
    match n
    case Bra(cap, alts, ket) =>
      var end := at + |EncChoice(BraByte(cap), alts)|;
      && Walk(code, at) == Headers(at, alts) + [end]
      && end + 2 < |code| && code[end] == KetByte(ket) && Get(code, end + 1) == end - at
      && ChoiceLinked(code, at, alts)
    case Zero(g, _) => NodeLinked(code, at + 1, g)
    case _ => true
  }

  ghost predicate CodeLinked(code: seq<byte>, at: nat, c: Code)
    requires ValidCode(c)
    decreases c, 0
  {
    c.Then? ==> NodeLinked(code, at, c.hd) && CodeLinked(code, at + |EncNode(c.hd)|, c.tl)
  }

  /** All brackets inside the alternatives, the first of which is headed at `at`. */
  ghost predicate ChoiceLinked(code: seq<byte>, at: nat, a: Choice)
    requires ValidChoice(a)
    decreases a, 1
  {
    CodeLinked(code, at + 3, a.c) && (a.Or? ==> ChoiceLinked(code, at + 3 + |EncCode(a.c)|, a.more))
  }

  ghost predicate Stands(code: seq<byte>, at: nat, text: seq<byte>) {
    at + |text| <= |code| && code[at..at + |text|] == text
  }

  lemma StandsParts(code: seq<byte>, at: nat, a: seq<byte>, b: seq<byte>)
    requires Stands(code, at, a + b)
    ensures Stands(code, at, a) && Stands(code, at + |a|, b)
  {
    assert code[at..at + |a|] == code[at..at + |a| + |b|][..|a|];
    assert code[at + |a|..at + |a| + |b|] == code[at..at + |a| + |b|][|a|..];
  }

  /** A link of `d` after an opcode. */
  lemma LinkStands(code: seq<byte>, at: nat, op: byte, d: nat)
    requires d < 0x1_0000 && Stands(code, at, [op] + Put(d))
    ensures at + 2 < |code| && code[at] == op && Get(code, at + 1) == d
  {
  }

  lemma ChoiceText(op: byte, a: Choice)
    requires ValidChoice(a)
    ensures EncChoice(op, a) == ([op] + Put(3 + |EncCode(a.c)|)) + (EncCode(a.c) + EncMore(a))
  {
  }

  lemma HeaderStands(code: seq<byte>, at: nat, op: byte, a: Choice)
    requires |code| <= MAX_PATTERN_SIZE && ValidChoice(a) && Stands(code, at, EncChoice(op, a)) && at + |EncChoice(op, a)| < |code|
    ensures var next := at + 3 + |EncCode(a.c)|;
            && at + 2 < |code| && code[at] == op && Get(code, at + 1) == next - at
            && Stands(code, at + 3, EncCode(a.c)) && Stands(code, next, EncMore(a)) && next <= |code|
            && |EncChoice(op, a)| == 3 + |EncCode(a.c)| + |EncMore(a)|
  {
    hide EncCode, EncMore, EncChoice;
    ChoiceText(op, a);
    var d := 3 + |EncCode(a.c)|;
    StandsParts(code, at, [op] + Put(d), EncCode(a.c) + EncMore(a));
    StandsParts(code, at + 3, EncCode(a.c), EncMore(a));
    LinkStands(code, at, op, d);
  }

  /** What a header's link leads to: the next header, or what follows the alternatives. */
  lemma HeaderNext(code: seq<byte>, at: nat, op: byte, a: Choice)
    requires |code| <= MAX_PATTERN_SIZE && ValidChoice(a) && Stands(code, at, EncChoice(op, a)) && at + |EncChoice(op, a)| < |code|
    ensures var next := at + 3 + |EncCode(a.c)|;
            && at + 2 < |code| && at + Get(code, at + 1) == next < |code|
            && if a.Or? then
                 && ValidChoice(a.more) && Stands(code, next, EncChoice(OP_ALT, a.more)) && code[next] == OP_ALT
                 && next + |EncChoice(OP_ALT, a.more)| == at + |EncChoice(op, a)|
               else next == at + |EncChoice(op, a)|
  {
    hide EncCode, EncMore, EncChoice, Stands;
    HeaderStands(code, at, op, a);
    MoreText(a);
    if a.Or? { HeaderStands(code, at + 3 + |EncCode(a.c)|, OP_ALT, a.more); }
  }

  /** The links from a header, when a byte that heads no alternative follows the last one. */
  lemma {:induction false} WalkHeaders(code: seq<byte>, at: nat, op: byte, a: Choice)
    requires |code| <= MAX_PATTERN_SIZE && ValidChoice(a) && Stands(code, at, EncChoice(op, a))
    requires var end := at + |EncChoice(op, a)|; end < |code| && code[end] != OP_ALT
    ensures Walk(code, at) == Headers(at, a) + [at + |EncChoice(op, a)|]
    decreases a
  {
    hide EncCode, EncChoice, Walk, Stands, Get, Headers;
    var end := at + |EncChoice(op, a)|;
    HeaderNext(code, at, op, a);
    WalkStep(code, at);
    HeadersStep(at, a);
    if a.Or? {
      var next := at + 3 + |EncCode(a.c)|;
      WalkHeaders(code, next, OP_ALT, a.more);
      Assoc([at], Headers(next, a.more), [end]);
    } else {
      assert [at] + [end] == [at, end];
    }
  }

  lemma HeadersStep(at: nat, a: Choice)
    requires ValidChoice(a)
    ensures a.Or? ==> ValidChoice(a.more)
    ensures Headers(at, a) == if a.Or? then [at] + Headers(at + 3 + |EncCode(a.c)|, a.more) else [at]
  {
  }

  lemma MoreText(a: Choice)
    requires ValidChoice(a)
    ensures a.Or? ==> ValidChoice(a.more)
    ensures EncMore(a) == if a.Or? then EncChoice(OP_ALT, a.more) else []
  {
  }

  lemma WalkStep(code: seq<byte>, at: nat)
    requires at + 2 < |code| && at < at + Get(code, at + 1) < |code|
    ensures var next := at + Get(code, at + 1);
            Walk(code, at) == if code[next] == OP_ALT then [at] + Walk(code, next) else [at, next]
  {
  }

  lemma CodeParts(c: Code)
    requires ValidCode(c) && c.Then?
    ensures EncCode(c) == EncNode(c.hd) + EncCode(c.tl)
  {
  }

  lemma {:induction false} CodeIsLinked(code: seq<byte>, at: nat, c: Code)
    requires |code| <= MAX_PATTERN_SIZE && ValidCode(c) && Stands(code, at, EncCode(c))
    ensures CodeLinked(code, at, c)
    decreases c, 0
  {
    if c.Then? {
      hide EncCode, EncNode, Stands, NodeLinked, ValidNode;
      CodeParts(c);
      StandsParts(code, at, EncNode(c.hd), EncCode(c.tl));
      NodeIsLinked(code, at, c.hd);
      CodeIsLinked(code, at + |EncNode(c.hd)|, c.tl);
    }
  }

  lemma {:induction false} ChoiceIsLinked(code: seq<byte>, at: nat, op: byte, a: Choice)
    requires |code| <= MAX_PATTERN_SIZE && ValidChoice(a) && Stands(code, at, EncChoice(op, a)) && at + |EncChoice(op, a)| < |code|
    ensures ChoiceLinked(code, at, a)
    decreases a, 1
  {
    HeaderStands(code, at, op, a);
    CodeIsLinked(code, at + 3, a.c);
    if a.Or? { ChoiceIsLinked(code, at + 3 + |EncCode(a.c)|, OP_ALT, a.more); }
  }

  lemma {:induction false} NodeIsLinked(code: seq<byte>, at: nat, n: Node)
    requires |code| <= MAX_PATTERN_SIZE && ValidNode(n) && Stands(code, at, EncNode(n))
    ensures NodeLinked(code, at, n)
    decreases n, 2
  {
    hide EncCode, EncMore, EncChoice, EncNode, Walk, Headers, Stands, ChoiceLinked;
    if n.Bra? {
      var op, body := BraByte(n.cap), EncChoice(BraByte(n.cap), n.alts);
      BraText(n);
      StandsParts(code, at, body, [KetByte(n.ket)] + Put(|body|));
      assert Stands(code, at + |body|, [KetByte(n.ket)] + Put(|body|));
      KetStands(code, at, n);
      WalkHeaders(code, at, op, n.alts);
      ChoiceIsLinked(code, at, op, n.alts);
    } else if n.Zero? {
      ZeroEnc(n.g, n.lazy);
      StandsParts(code, at, [OP_BRAZERO + LazyBit(n.lazy)], EncNode(n.g));
      NodeIsLinked(code, at + 1, n.g);
    }
  }

  lemma BraText(n: Node)
    requires n.Bra? && ValidNode(n)
    ensures ValidChoice(n.alts)
    ensures var body := EncChoice(BraByte(n.cap), n.alts); EncNode(n) == body + ([KetByte(n.ket)] + Put(|body|))
  {
  }

  lemma KetStands(code: seq<byte>, at: nat, n: Node)
    requires |code| <= MAX_PATTERN_SIZE && n.Bra? && ValidNode(n) && ValidChoice(n.alts)
    requires var body := EncChoice(BraByte(n.cap), n.alts); Stands(code, at + |body|, [KetByte(n.ket)] + Put(|body|))
    ensures var end := at + |EncChoice(BraByte(n.cap), n.alts)|;
            end + 2 < |code| && code[end] == KetByte(n.ket) && Get(code, end + 1) == end - at
  {
    hide EncChoice;
    var body := EncChoice(BraByte(n.cap), n.alts);
    LinkStands(code, at + |body|, KetByte(n.ket), |body|);
  }

  /** In a compiled pattern, {n,m} and all, every bracket is linked like that. */
  lemma PatternLinked(alts: Alts)
    requires ValidAlts(alts) && ValidNode(LowerPattern(alts)) && |CompiledPattern(alts)| <= MAX_PATTERN_SIZE
    ensures NodeLinked(CompiledPattern(alts), 0, LowerPattern(alts))
  {
    StandsParts(CompiledPattern(alts) + [], 0, EncNode(LowerPattern(alts)), [OP_END]);
    assert CompiledPattern(alts) + [] == CompiledPattern(alts);
    NodeIsLinked(CompiledPattern(alts), 0, LowerPattern(alts));
  }
}
