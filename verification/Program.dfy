/**
 * Compiled code as a tree: its byte encoding, and the ordered list of ways it can match.
 */
module Program {
  import opened Bytes
  import opened Opcodes
  import opened Subject
  import opened Regex

  /** What ends a group: OP_KET, OP_KETRMAX or OP_KETRMIN. */
  datatype Ket = Plain | Max | Min

  datatype Node =
    | Chars(run: seq<byte>)
    | One(t: Test)
    | Many(t: Test, min: nat, max: int, lazy: bool, counted: bool)  // max == -1: no limit
    | AtStart
    | AtEnd
    | Number(n: nat)                                 // OP_BRANUMBER
    | Bra(cap: nat, alts: Choice, ket: Ket)
    | Zero(g: Node, lazy: bool)                      // OP_BRAZERO or OP_BRAMINZERO, then a group

  datatype Code = Empty | Then(hd: Node, tl: Code)
  datatype Choice = Only(c: Code) | Or(c: Code, more: Choice)

  function Append(a: Code, b: Code): Code {
    match a
    case Empty => b
    case Then(h, t) => Then(h, Append(t, b))
  }

  // ----- well-formed code -----

  /** The repeat counts a single repeat opcode can hold. */
  predicate ValidMany(t: Test, min: nat, max: int) {
    t.Valid() &&
    if t.Class? then min <= 65535 && -1 <= max <= 65535 && (max == -1 || (min <= max && 0 < max))
    else ByteBounds(min, max)
  }

  /** A number too large for the bracket opcode follows the bracket. */
  predicate Labelled(cap: nat, a: Choice) {
    cap > EXTRACT_BASIC_MAX ==> a.c.Then? && a.c.hd == Number(cap)
  }

  predicate ValidNode(n: Node) {
    match n
    case Chars(run) => 1 <= |run| <= MAXLIT
    case One(t) => t.Valid() && !t.Char?
    case Many(t, min, max, _, _) => ValidMany(t, min, max)
    case AtStart => true
    case AtEnd => true
    case Number(i) => i < 0x1_0000
    case Bra(cap, alts, _) =>
      cap < 0x1_0000 && ValidChoice(alts) && Labelled(cap, alts)
    case Zero(g, _) => g.Bra? && ValidNode(g)
  }

  predicate ValidCode(c: Code) {
    c.Then? ==> ValidNode(c.hd) && ValidCode(c.tl)
  }

  predicate ValidChoice(a: Choice) {
    ValidCode(a.c) && (a.Or? ==> ValidChoice(a.more))
  }

  lemma {:induction false} AppendValid(a: Code, b: Code)
    requires ValidCode(a) && ValidCode(b)
    ensures ValidCode(Append(a, b))
  {
    if a.Then? {
      AppendValid(a.tl, b);
    }
  }

  // ----- encoding -----

  function TypeByte(op: TypeOp): byte {
    match op
    case NotDigit => OP_NOT_DIGIT
    case Digit => OP_DIGIT
    case NotSpace => OP_NOT_WHITESPACE
    case Space => OP_WHITESPACE
    case NotWord => OP_NOT_WORDCHAR
    case Word => OP_WORDCHAR
    case Any => OP_ANY
  }

  function LazyBit(lazy: bool): nat {
    if lazy then 1 else 0
  }

  /** The first of the opcodes that repeat this kind of test. */
  function RepeatBase(t: Test): byte
    requires !t.Class?
  {
    match t
    case Char(_) => OP_STAR
    case NotChar(_) => OP_NOTSTAR
    case Type(_) => OP_TYPESTAR
  }

  /** The operand byte that follows a repeat opcode. */
  function Operand(t: Test): byte
    requires !t.Class?
  {
    match t
    case Char(c) => c
    case NotChar(c) => c
    case Type(op) => TypeByte(op)
  }

  function EncTest(t: Test): seq<byte>
    requires t.Valid() && !t.Char?
  {
    match t
    case NotChar(c) => [OP_NOT, c]
    case Type(op) => [TypeByte(op)]
    case Class(neg, bits) => [if neg then OP_NCLASS else OP_CLASS] + bits
  }

  /** The repeat that follows a class. */
  function ClassRepeat(min: nat, max: int, lazy: bool): seq<byte>
    requires min <= 65535 && -1 <= max <= 65535
  {
    var z := LazyBit(lazy);
    if min == 0 && max == -1 then [OP_CRSTAR + z]
    else if min == 1 && max == -1 then [OP_CRPLUS + z]
    else if min == 0 && max == 1 then [OP_CRQUERY + z]
    else [OP_CRRANGE + z] + Put(min) + Put(if max == -1 then 0 else max)
  }

  /** The bounds a repeat opcode for a single byte or type can state. */
  predicate ByteBounds(min: nat, max: int) {
    || (max == -1 && min <= 1)
    || (min == 0 && 0 < max <= 65535)
    || (min == max && 2 <= max <= 65535)
  }

  /**
   * A repeat opcode and its count, for the family of opcodes that starts at `base`. {0,1} is an
   * OP_QUERY, or with `counted` an OP_UPTO.
   */
  function ByteRepeat(base: byte, min: nat, max: int, lazy: bool, counted: bool): seq<byte>
    requires base < 64 && ByteBounds(min, max)
  {
    var z := LazyBit(lazy);
    if max == -1 then [base + 2 * min + z]
    else if max == 1 && !counted then [base + 4 + z]
    else if min == 0 then [base + 6 + z] + Put(max)
    else [base + 8] + Put(max)
  }

  function EncMany(t: Test, min: nat, max: int, lazy: bool, counted: bool): seq<byte>
    requires ValidMany(t, min, max)
  {
    if t.Class? then EncTest(t) + ClassRepeat(min, max, lazy)
    else ByteRepeat(RepeatBase(t), min, max, lazy, counted) + [Operand(t)]
  }

  function BraByte(cap: nat): byte {
    if cap > EXTRACT_BASIC_MAX then OP_BRA + EXTRACT_BASIC_MAX + 1 else OP_BRA + cap
  }

  function KetByte(k: Ket): byte {
    match k
    case Plain => OP_KET
    case Max => OP_KETRMAX
    case Min => OP_KETRMIN
  }

  function EncNode(n: Node): (r: seq<byte>)
    requires ValidNode(n)
    ensures |r| >= 1
    decreases n, 0
  {
    match n
    case Chars(run) => [OP_CHARS, |run|] + run
    case One(t) => EncTest(t)
    case Many(t, min, max, lazy, counted) => EncMany(t, min, max, lazy, counted)
    case AtStart => [OP_CIRC]
    case AtEnd => [OP_DOLL]
    case Number(i) => [OP_BRANUMBER] + Put(i)
    case Bra(cap, alts, ket) =>
      var body := EncChoice(BraByte(cap), alts);
      body + [KetByte(ket)] + Put(|body|)
    case Zero(g, lazy) => [OP_BRAZERO + LazyBit(lazy)] + EncNode(g)
  }

  function EncCode(c: Code): seq<byte>
    requires ValidCode(c)
    decreases c, 0
  {
    match c
    case Empty => []
    case Then(h, t) => EncNode(h) + EncCode(t)
  }

  /** Each alternative is headed by an opcode and the distance to the next header or the ket. */
  function EncChoice(op: byte, a: Choice): (r: seq<byte>)
    requires ValidChoice(a)
    ensures |r| >= 3 && r[0] == op
    decreases a, 1
  {
    var body := EncCode(a.c);
    [op] + Put(3 + |body|) + body + EncMore(a)
  }

  /** The alternatives after the first one. */
  function EncMore(a: Choice): seq<byte>
    requires ValidChoice(a)
    decreases a, 0
  {
    if a.Or? then EncChoice(OP_ALT, a.more) else []
  }

  lemma {:induction false} EncAppend(a: Code, b: Code)
    requires ValidCode(a) && ValidCode(b)
    ensures ValidCode(Append(a, b))
    ensures EncCode(Append(a, b)) == EncCode(a) + EncCode(b)
  {
    if a.Then? {
      EncAppend(a.tl, b);
      assert EncNode(a.hd) + (EncCode(a.tl) + EncCode(b)) == EncNode(a.hd) + EncCode(a.tl) + EncCode(b);
    }
  }

  // ----- ordered ways to match -----

  function CodeEnds(E: Env, c: Code, st: St): seq<St>
    requires ValidCode(c)
    decreases c, 0
  {
    match c
    case Empty => [st]
    case Then(h, t) => CodeEndsAll(E, t, NodeEnds(E, h, st))
  }

  function CodeEndsAll(E: Env, c: Code, sts: seq<St>): seq<St>
    requires ValidCode(c)
    decreases c, 1, |sts|
  {
    if sts == [] then [] else CodeEnds(E, c, sts[0]) + CodeEndsAll(E, c, sts[1..])
  }

  function NodeEnds(E: Env, n: Node, st: St): seq<St>
    requires ValidNode(n)
    decreases n, 4
  {
    match n
    case Chars(run) => RunEnds(E, run, st)
    case One(t) => TestEnds(E, t, 1, 1, false, st)
    case Many(t, min, max, lazy, _) => TestEnds(E, t, min, max, lazy, st)
    case AtStart => AtEnds(st.pos <= |E.s| && CircAt(E, st.pos), st)
    case AtEnd => AtEnds(st.pos <= |E.s| && DollAt(E, st.pos), st)
    case Number(_) => [st]
    case Bra(cap, alts, ket) => BraEnds(E, n, st)
    case Zero(g, lazy) => Order(lazy, [st], NodeEnds(E, g, st))
  }

  function ChoiceEnds(E: Env, a: Choice, st: St): seq<St>
    requires ValidChoice(a)
    decreases a, 0
  {
    CodeEnds(E, a.c, st) + if a.Or? then ChoiceEnds(E, a.more, st) else []
  }

  /** One pass through a group. */
  function PassEnds(E: Env, g: Node, st: St): seq<St>
    requires g.Bra? && ValidNode(g)
    decreases g, 1
  {
    CloseAll(g.cap, st.pos, ChoiceEnds(E, g.alts, st))
  }

  function BraEnds(E: Env, g: Node, st: St): seq<St>
    requires g.Bra? && ValidNode(g)
    decreases g, 3
  {
    KetEndsAll(E, g, st.pos, PassEnds(E, g, st))
  }

  /** After a pass from `start` that ended in `r`: leave the group, or go round if it repeats. */
  function KetEnds(E: Env, g: Node, start: nat, r: St): seq<St>
    requires g.Bra? && ValidNode(g)
    decreases g, 2, if start < |E.s| then |E.s| - start else 0, 0
  {
    if g.ket.Plain? then [r] else
    Order(g.ket.Min?, [r],
          if start < r.pos <= |E.s| then KetEndsAll(E, g, r.pos, PassEnds(E, g, r)) else [])
  }

  function KetEndsAll(E: Env, g: Node, start: nat, rs: seq<St>): seq<St>
    requires g.Bra? && ValidNode(g)
    decreases g, 2, if start < |E.s| then |E.s| - start else 0, |rs|
  {
    if rs == [] then [] else KetEnds(E, g, start, rs[0]) + KetEndsAll(E, g, start, rs[1..])
  }
}
