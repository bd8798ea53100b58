/**
 * Where things are in the compiled bytes. Everything still to be matched is a suffix of the
 * code, so a code position is fixed by the text that follows it.
 */
module Layout {
  import opened Wrappers
  import opened Bytes
  import opened Opcodes
  import opened Program
  import opened Machine

  ghost function KetText(g: Node): seq<byte>
    requires g.Bra? && ValidNode(g)
  {
    [KetByte(g.ket)] + Put(|EncChoice(BraByte(g.cap), g.alts)|)
  }

  ghost function LaterText(l: Later): seq<byte>
    requires l.More? ==> ValidChoice(l.alts)
  {
    if l.More? then EncChoice(OP_ALT, l.alts) else []
  }

  /** The code from the point where `k` is what remains. */
  ghost function Text(k: Todo): (t: seq<byte>)
    requires Valid(k)
    ensures |t| > 0
  {
    EncCode(k.rest) +
    if k.Top? then [OP_END] else LaterText(k.later) + KetText(k.g) + Text(k.up)
  }

  ghost predicate EndsWith(code: seq<byte>, t: seq<byte>) {
    |t| <= |code| && code[|code| - |t|..] == t
  }

  ghost function Pc(code: seq<byte>, k: Todo): int
    requires Valid(k)
  {
    |code| - |Text(k)|
  }

  /** `k` lies at `Pc(code, k)`, inside groups that are laid out around it. */
  ghost predicate Placed(code: seq<byte>, k: Todo) {
    Valid(k) && EndsWith(code, Text(k)) &&
    (k.In? ==> Placed(code, k.up) && EndsWith(code, EncNode(k.g) + Text(k.up)))
  }

  /** Alternatives `a` of `g`, headed by `op`, stand at `pc`, and `k` follows the group. */
  ghost predicate AltsAt(code: seq<byte>, pc: int, op: byte, a: Choice, g: Node, k: Todo) {
    Placed(code, k) && g.Bra? && ValidNode(g) && ValidChoice(a) &&
    EndsWith(code, EncNode(g) + Text(k)) &&
    EndsWith(code, EncChoice(op, a) + KetText(g) + Text(k)) &&
    pc == |code| - |EncChoice(op, a) + KetText(g) + Text(k)|
  }

  lemma EndsWithTail(code: seq<byte>, a: seq<byte>, b: seq<byte>)
    requires EndsWith(code, a + b)
    ensures EndsWith(code, b)
    ensures var at := |code| - |a| - |b|; 0 <= at && code[at..at + |a|] == a
  {
  }

  lemma TextThen(k: Todo)
    requires Valid(k) && k.rest.Then?
    ensures var next := k.(rest := k.rest.tl);
            Valid(next) && ValidNode(k.rest.hd) && Text(k) == EncNode(k.rest.hd) + Text(next)
  {
    var next := k.(rest := k.rest.tl);
    assert ValidNode(k.rest.hd) && ValidCode(k.rest.tl) && Valid(next);
    var tail := Tail(k);
    assert EncCode(k.rest) == EncNode(k.rest.hd) + EncCode(k.rest.tl);
    hide EncNode, EncCode, Tail, ValidNode, ValidCode, Valid;
    TailText(k);
    TailText(next);
    TailSame(k, next);
    Assoc(EncNode(k.rest.hd), EncCode(next.rest), tail);
  }

  /** The code behind the rest of the innermost branch. */
  ghost function Tail(k: Todo): seq<byte>
    requires Valid(k)
  {
    if k.Top? then [OP_END] else LaterText(k.later) + KetText(k.g) + Text(k.up)
  }

  lemma TailText(k: Todo)
    requires Valid(k)
    ensures Text(k) == EncCode(k.rest) + Tail(k)
  {
  }

  lemma TailSame(k: Todo, next: Todo)
    requires Valid(k) && Valid(next) && next == k.(rest := next.rest)
    ensures Tail(next) == Tail(k)
  {
  }

  /** Past the first item of what remains. */
  lemma StepOver(code: seq<byte>, k: Todo)
    requires Placed(code, k) && k.rest.Then?
    ensures var next, enc := k.(rest := k.rest.tl), EncNode(k.rest.hd);
            && Valid(next) && Placed(code, next)
            && Pc(code, next) == Pc(code, k) + |enc|
            && 0 <= Pc(code, k) < Pc(code, next) < |code|
            && code[Pc(code, k)..Pc(code, next)] == enc
            && forall i :: 0 <= i < |enc| ==> enc[i] == code[Pc(code, k) + i]
  {
    hide Text, EncNode, EncCode, ValidNode;
    var next, enc := k.(rest := k.rest.tl), EncNode(k.rest.hd);
    TextThen(k);
    EndsWithTail(code, enc, Text(next));
    assert forall i :: 0 <= i < |enc| ==> enc[i] == code[Pc(code, k)..Pc(code, next)][i];
  }

  lemma PlacePush(code: seq<byte>, g: Node, k: Todo)
    requires Placed(code, k) && ValidNode(g) && EndsWith(code, EncNode(g) + Text(k))
    ensures Valid(Push(g, k)) && Placed(code, Push(g, k)) && Text(Push(g, k)) == EncNode(g) + Text(k)
  {
    assert ValidCode(Then(g, k.rest));
    TextThen(Push(g, k));
    assert Push(g, k).(rest := k.rest) == k;
  }

  lemma GroupText(g: Node)
    requires g.Bra? && ValidNode(g)
    ensures ValidChoice(g.alts) && EncNode(g) == EncChoice(BraByte(g.cap), g.alts) + KetText(g)
  {
  }

  /** At the end of a branch. */
  lemma EndText(k: Todo)
    requires Valid(k) && k.In? && k.rest.Empty?
    ensures Text(k) == LaterText(k.later) + KetText(k.g) + Text(k.up)
  {
  }

  /** A bracket that comes next, seen as its list of alternatives. */
  lemma AtBracket(code: seq<byte>, g: Node, k: Todo)
    requires Placed(code, k) && g.Bra? && ValidNode(g) && EndsWith(code, EncNode(g) + Text(k))
    ensures AltsAt(code, |code| - |EncNode(g) + Text(k)|, BraByte(g.cap), g.alts, g, k)
  {
    hide Text, EncCode, EncMore;
    GroupText(g);
  }

  /** An opcode with a two-byte link, then `body`, then `rest`. */
  lemma AtLink(code: seq<byte>, op: byte, body: seq<byte>, rest: seq<byte>)
    requires |code| <= MAX_PATTERN_SIZE && |rest| > 0 && EndsWith(code, [op] + Put(3 + |body|) + body + rest)
    ensures EndsWith(code, body + rest) && EndsWith(code, rest)
    ensures var pc := |code| - |body| - |rest| - 3;
            0 <= pc && code[pc] == op && Get(code, pc + 1) == 3 + |body|
  {
  }

  /** The code from the end of alternative `a`: the alternatives after it, or the ket. */
  ghost function Behind(a: Choice, g: Node, k: Todo): (t: seq<byte>)
    requires Valid(k) && g.Bra? && ValidNode(g) && ValidChoice(a)
    ensures |t| > 3 && t[0] == if a.Or? then OP_ALT else KetByte(g.ket)
    ensures a.Or? ==> t == EncChoice(OP_ALT, a.more) + KetText(g) + Text(k)
    ensures a.Only? ==> |t| == 3 + |Text(k)|
  {
    EncMore(a) + KetText(g) + Text(k)
  }

  lemma Regroup(head: seq<byte>, more: seq<byte>, ket: seq<byte>, tail: seq<byte>)
    ensures head + more + ket + tail == head + (more + ket + tail)
  {
  }

  lemma HeaderText(op: byte, a: Choice, g: Node, k: Todo)
    requires Valid(k) && g.Bra? && ValidNode(g) && ValidChoice(a)
    ensures EncChoice(op, a) + KetText(g) + Text(k) == [op] + Put(3 + |EncCode(a.c)|) + EncCode(a.c) + Behind(a, g, k)
  {
    Regroup([op] + Put(3 + |EncCode(a.c)|) + EncCode(a.c), EncMore(a), KetText(g), Text(k));
  }

  lemma EnterBehind(a: Choice, g: Node, start: nat, k: Todo)
    requires Valid(k) && g.Bra? && ValidNode(g) && ValidChoice(a)
    ensures Valid(Enter(a, g, start, k)) && Text(Enter(a, g, start, k)) == EncCode(a.c) + Behind(a, g, k)
  {
  }

  lemma HeaderLink(code: seq<byte>, pc: int, op: byte, a: Choice, g: Node, start: nat, k: Todo)
    requires |code| <= MAX_PATTERN_SIZE && AltsAt(code, pc, op, a, g, k)
    ensures 0 <= pc && pc + 3 + |Behind(a, g, k)| <= |code| && code[pc] == op
    ensures Get(code, pc + 1) == |code| - |Behind(a, g, k)| - pc
    ensures EndsWith(code, Behind(a, g, k))
    ensures Valid(Enter(a, g, start, k)) && EndsWith(code, Text(Enter(a, g, start, k)))
    ensures Pc(code, Enter(a, g, start, k)) == pc + 3
  {
    HeaderText(op, a, g, k);
    EnterBehind(a, g, start, k);
    AtLink(code, op, EncCode(a.c), Behind(a, g, k));
  }

  /** The header of an alternative: its opcode, its link, its body and what the link leads to. */
  lemma AtHeader(code: seq<byte>, pc: int, op: byte, a: Choice, g: Node, start: nat, k: Todo)
    requires |code| <= MAX_PATTERN_SIZE && AltsAt(code, pc, op, a, g, k)
    ensures 0 <= pc && pc + 6 < |code| && code[pc] == op
    ensures var e, link := Enter(a, g, start, k), Get(code, pc + 1);
            && Valid(e) && Placed(code, e) && Pc(code, e) == pc + 3
            && link > 0 && pc + link + 3 < |code|
            && (a.Or? ==> AltsAt(code, pc + link, OP_ALT, a.more, g, k) && code[pc + link] == OP_ALT)
            && (a.Only? ==> code[pc + link] == KetByte(g.ket) && pc + link + 3 == Pc(code, k))
  {
    hide EncChoice, EncCode, EncNode, Text;
    HeaderLink(code, pc, op, a, g, start, k);
    var behind := Behind(a, g, k);
    assert code[|code| - |behind|] == code[|code| - |behind|..][0];
  }

  /** At the ket of the innermost group: its link leads back to the bracket. */
  lemma AtKet(code: seq<byte>, k: Todo)
    requires |code| <= MAX_PATTERN_SIZE && Placed(code, k) && k.In? && k.rest.Empty? && k.later.NoMore?
    ensures var pc := Pc(code, k);
            && 0 <= pc && pc + 3 < |code| && code[pc] == KetByte(k.g.ket)
            && Valid(k.up) && pc + 3 == Pc(code, k.up)
            && 0 < Get(code, pc + 1) <= pc
            && AltsAt(code, pc - Get(code, pc + 1), BraByte(k.g.cap), k.g.alts, k.g, k.up)
  {
    hide EncChoice, EncCode, EncNode, Text;
    var pc, size := Pc(code, k), |EncChoice(BraByte(k.g.cap), k.g.alts)|;
    EndText(k);
    GroupText(k.g);
    assert Text(k) == KetText(k.g) + Text(k.up);
    EndsWithTail(code, KetText(k.g), Text(k.up));
    AtBracket(code, k.g, k.up);
    assert code[pc] == code[pc..pc + 3][0] && code[pc + 1..pc + 3] == code[pc..pc + 3][1..] == Put(size);
    assert |EncNode(k.g) + Text(k.up)| == size + 3 + |Text(k.up)|;
    GetPut(code, pc + 1, size);
  }

  /** What the first byte of the remaining text tells. */
  lemma AtByte(code: seq<byte>, k: Todo)
    requires Placed(code, k)
    ensures 0 <= Pc(code, k) < |code|
    ensures code[Pc(code, k)] ==
            if k.rest.Then? then EncNode(k.rest.hd)[0]
            else if k.Top? then OP_END
            else if k.later.More? then OP_ALT else KetByte(k.g.ket)
  {
  }

  /** Only inside a class item is a byte in the range of the class repeat opcodes. */
  lemma NotClassRepeat(code: seq<byte>, k: Todo)
    requires Placed(code, k)
    ensures 0 <= Pc(code, k) < |code|
    ensures code[Pc(code, k)] < OP_CRSTAR || OP_CRRANGE + 1 < code[Pc(code, k)]
  {
    hide EncNode, Text;
    AtByte(code, k);
    if k.rest.Then? {
      FirstByte(k.rest.hd);
    }
  }

  lemma NumberBytes(n: nat)
    requires n < 0x1_0000
    ensures EncNode(Number(n)) == [OP_BRANUMBER] + Put(n)
  {
  }

  /** The opcode tells what kind of item it is. */
  lemma FirstByte(n: Node)
    requires ValidNode(n)
    ensures var op := EncNode(n)[0];
            match n
            case Chars(_) => op == OP_CHARS
            case One(t) => if t.Class? then op == OP_CLASS || op == OP_NCLASS else (OP_NOT_DIGIT <= op <= OP_ANY || op == OP_NOT)
            case Many(t, _, _, _, _) => OP_STAR <= op <= OP_TYPEEXACT || op == OP_CLASS || op == OP_NCLASS
            case AtStart => op == OP_CIRC
            case AtEnd => op == OP_DOLL
            case Number(_) => op == OP_BRANUMBER
            case Bra(_, _, _) => op >= OP_BRA
            case Zero(_, lazy) => op == OP_BRAZERO + LazyBit(lazy)
  {
  }

  /** The end of a branch that is not the last: the other alternatives, then the ket. */
  lemma AtAlt(code: seq<byte>, k: Todo)
    requires Placed(code, k) && k.In? && k.rest.Empty? && k.later.More?
    ensures AltsAt(code, Pc(code, k), OP_ALT, k.later.alts, k.g, k.up)
    ensures Placed(code, k.(later := NoMore)) && Pc(code, k.(later := NoMore)) == Pc(code, k.up) - 3
  {
    hide EncChoice, EncNode, EncCode, Text;
    var alts, ket, tail := EncChoice(OP_ALT, k.later.alts), KetText(k.g), Text(k.up);
    EndText(k);
    EndText(k.(later := NoMore));
    assert Text(k) == alts + (ket + tail);
    EndsWithTail(code, alts, ket + tail);
    assert Text(k.(later := NoMore)) == ket + tail;
  }

  lemma ZeroText(n: Node)
    requires n.Zero? && ValidNode(n)
    ensures ValidNode(n.g) && EncNode(n) == [OP_BRAZERO + LazyBit(n.lazy)] + EncNode(n.g)
  {
  }

  /** BRAZERO stands just before its group. */
  lemma AtZero(code: seq<byte>, k: Todo)
    requires Placed(code, k) && k.rest.Then? && k.rest.hd.Zero?
    ensures var n, next, pc := k.rest.hd, k.(rest := k.rest.tl), Pc(code, k);
            && Valid(next) && Placed(code, next) && Pc(code, next) >= 0
            && ValidNode(n) && n.g.Bra? && 0 <= pc && pc + 1 < |code| && code[pc] == OP_BRAZERO + LazyBit(n.lazy)
            && AltsAt(code, pc + 1, BraByte(n.g.cap), n.g.alts, n.g, next)
            && Valid(Push(n.g, next)) && Placed(code, Push(n.g, next)) && Pc(code, Push(n.g, next)) == pc + 1
  {
    hide EncNode, Text;
    var n, next, pc := k.rest.hd, k.(rest := k.rest.tl), Pc(code, k);
    StepOver(code, k);
    TextThen(k);
    ZeroText(n);
    var op := [OP_BRAZERO + LazyBit(n.lazy)];
    assert Text(k) == op + (EncNode(n.g) + Text(next));
    EndsWithTail(code, op, EncNode(n.g) + Text(next));
    assert code[pc] == code[pc..pc + 1][0];
    PlacePush(code, n.g, next);
    AtBracket(code, n.g, next);
  }

  /** Follows the links from a bracket, or from one of its later alternatives, to its ket. */
  method SkipGroup(code: seq<byte>, pc: nat, ghost op: byte, ghost a: Choice, ghost g: Node, ghost k: Todo) returns (ket: nat)
    requires |code| <= MAX_PATTERN_SIZE && AltsAt(code, pc, op, a, g, k)
    ensures pc < ket && ket + 3 == Pc(code, k) && ket + 2 < |code| && code[ket] == KetByte(g.ket)
  {
    hide EncChoice, EncCode, EncNode, Text, Placed;
    ket := pc;
    ghost var o, rest := op, a;
    while true
      invariant pc <= ket && AltsAt(code, ket, o, rest, g, k)
      decreases |code| - ket
    {
      AtHeader(code, ket, o, rest, g, 0, k);
      ket := ket + Get(code, ket + 1);
      if code[ket] != OP_ALT { return; }
      o, rest := OP_ALT, rest.more;
    }
  }
}
