/**
 * The second pass: compile_branch and compile_regex write code into the array that the first
 * pass allowed for, moving and patching it in place.
 */
module Compiler {
  import opened Wrappers
  import opened Bytes
  import opened Opcodes
  import opened Subject
  import opened Regex
  import opened Program
  import opened Lower
  import opened FirstPass
  import opened Hints
  import opened CodeText
  import opened Numbering

  class CompileData {
    const code: array<byte>
    const opt: Options
    var brackets: nat

    constructor (code: array<byte>, opt: Options)
      ensures this.code == code && this.opt == opt && brackets == 0
    {
      this.code, this.opt, brackets := code, opt, 0;
    }

    // ----- stores -----

    /** `*code++ = c`. */
    method Store(at: nat, c: byte) returns (next: nat)
      requires at < code.Length
      modifies code
      ensures next == at + 1 && code[..next] == old(code[..at]) + [c]
    {
      code[at] := c;
      next := at + 1;
    }

    /** PUT: two bytes, most significant first; the rest stays. */
    method PutAt(at: nat, d: nat)
      requires at + 2 <= code.Length
      modifies code
      ensures code[..] == old(code[..at]) + Put(d) + old(code[at + 2..])
      ensures code[..at + 2] == old(code[..at]) + Put(d)
    {
      code[at] := d / 256 % 256;
      code[at + 1] := d % 256;
    }

    /** An opcode and PUT2INC. */
    method StoreCount(at: nat, op: byte, d: nat) returns (next: nat)
      requires at + 3 <= code.Length
      modifies code
      ensures next == at + 3 && code[..next] == old(code[..at]) + ([op] + Put(d))
    {
      next := Store(at, op);
      PutAt(next, d);
      next := next + 2;
    }

    /** `memcpy` to a place after the bytes copied. */
    method Copy(at: nat, from: nat, len: nat) returns (next: nat)
      requires from + len <= at && at + len <= code.Length
      modifies code
      ensures next == at + len && code[..next] == old(code[..at]) + old(code[from..from + len])
    {
      var i := 0;
      while i < len
        invariant i <= len
        invariant code[..at] == old(code[..at]) && code[at..at + i] == old(code[from..from + i])
      {
        assert code[from + i] == code[..at][from + i] == old(code[..at])[from + i];
        code[at + i] := code[from + i];
        i := i + 1;
      }
      next := at + len;
      assert code[..next] == code[..at] + code[at..next];
    }

    /** `memmove` upwards by `d`: the last byte goes first. */
    method MoveUp(from: nat, len: nat, d: nat)
      requires from + len + d <= code.Length
      modifies code
      ensures code[..from] == old(code[..from]) && code[from + d..from + d + len] == old(code[from..from + len])
    {
      ghost var was := code[..];
      var i := len;
      while i > 0
        invariant 0 <= i <= len
        invariant code[..from + i] == was[..from + i]
        invariant code[from + d + i..from + d + len] == was[from + i..from + len]
      {
        i := i - 1;
        assert code[from + i] == code[..from + i + 1][from + i] == was[from + i];
        code[from + d + i] := code[from + i];
        assert code[..from + i] == was[..from + i];
        assert code[from + d + i..from + d + len] == [was[from + i]] + was[from + i + 1..from + len];
      }
    }

    // ----- items -----

    /** A literal run: its length goes in last. */
    method Literal(at: nat, run: seq<byte>) returns (next: nat)
      requires 1 <= |run| <= MAXLIT && at + 2 + |run| <= code.Length
      modifies code
      ensures next == at + 2 + |run| && code[..next] == old(code[..at]) + EncNode(Chars(run))
    {
      code[at] := OP_CHARS;
      next := at + 2;
      var length := 0;
      while length < |run|
        invariant length <= |run| && next == at + 2 + length
        invariant code[..at] == old(code[..at]) && code[at] == OP_CHARS && code[at + 2..next] == run[..length]
      {
        code[next] := run[length];
        next := next + 1;
        length := length + 1;
      }
      code[at + 1] := length;
      assert code[at + 2..next] == run;
    }

    /** A negated byte, a character type or a class (its map is inverted already when negated). */
    method SingleItem(at: nat, t: Test) returns (next: nat)
      requires t.Valid() && !t.Char? && at + |EncTest(t)| <= code.Length
      modifies code
      ensures next == at + |EncTest(t)| && code[..next] == old(code[..at]) + EncNode(One(t))
    {
      match t
      case NotChar(c) =>
        next := Store(at, OP_NOT);
        next := Store(next, c);
      case Type(op) =>
        next := Store(at, TypeByte(op));
      case Class(negated, bits) =>
        next := Store(at, if negated then OP_NCLASS else OP_CLASS);
        next := Install(next, bits);
        Assoc(old(code[..at]), [if negated then OP_NCLASS else OP_CLASS], bits);
    }

    /** `memcpy` of a class map that was built elsewhere. */
    method Install(at: nat, bits: seq<byte>) returns (next: nat)
      requires at + |bits| <= code.Length
      modifies code
      ensures next == at + |bits| && code[..next] == old(code[..at]) + bits
    {
      var i := 0;
      while i < |bits|
        invariant i <= |bits| && code[..at + i] == old(code[..at]) + bits[..i]
      {
        code[at + i] := bits[i];
        i := i + 1;
      }
      next := at + |bits|;
    }

    // ----- repeats of one byte or type -----

    /** The rest of {n,m} after the mandatory part, and the operand that ends each part. */
    method RepeatRest(at: nat, c: byte, opType: byte, q: Quant, ghost t: Test) returns (next: nat)
      requires q.Rep? && q.Valid() && q.min > 0 && t.Valid() && !t.Class? && c == Operand(t) && OP_STAR + opType == RepeatBase(t)
      requires ValidCode(LowerRest(t, q.min, q.max, q.lazy))
      requires at + 1 + |EncCode(LowerRest(t, q.min, q.max, q.lazy))| <= code.Length
      modifies code
      ensures next == at + 1 + |EncCode(LowerRest(t, q.min, q.max, q.lazy))|
      ensures code[..next] == old(code[..at]) + [c] + EncCode(LowerRest(t, q.min, q.max, q.lazy))
    {
      hide EncCode, LowerRest;
      RestText(t, q);
      var repeatType := opType + LazyBit(q.lazy);
      next := at;
      if q.max < 0 {
        next := Store(next, c);
        next := Store(next, OP_STAR + repeatType);
      } else if q.max != q.min {
        next := Store(next, c);
        next := StoreCount(next, OP_UPTO + repeatType, q.max - q.min);
      }
      next := Store(next, c);
    }

    /** A repeat that one opcode can state. */
    method RepeatPlain(at: nat, c: byte, opType: byte, q: Quant) returns (next: nat)
      requires q.Rep? && q.Valid() && OP_STAR + opType < 64
      requires q.max != 0 && (q.min == 0 || (q.min == 1 && q.max < 0))
      requires at + |ByteRepeat(OP_STAR + opType, q.min, q.max, q.lazy, false)| + 1 <= code.Length
      modifies code
      ensures next == at + |ByteRepeat(OP_STAR + opType, q.min, q.max, q.lazy, false)| + 1
      ensures code[..next] == old(code[..at]) + (ByteRepeat(OP_STAR + opType, q.min, q.max, q.lazy, false) + [c])
    {
      var repeatType := opType + LazyBit(q.lazy);
      if q.min == 0 {
        if q.max == -1 {
          next := Store(at, OP_STAR + repeatType);
        } else if q.max == 1 {
          next := Store(at, OP_QUERY + repeatType);
        } else {
          next := StoreCount(at, OP_UPTO + repeatType, q.max);
        }
      } else {
        next := Store(at, OP_PLUS + repeatType);
      }
      next := Store(next, c);
    }

    /**
     * The mandatory part of {n,m}, short of its operand. One mandatory byte is put back where it
     * was: onto the run it was taken from, or as an item of its own.
     */
    method Mandatory(previous: nat, at: nat, opType: byte, q: Quant, ghost t: Test, ghost head: seq<byte>) returns (next: nat)
      requires q.Rep? && q.Valid() && q.min > 0 && !t.Class? && OP_STAR + opType == RepeatBase(t)
      requires at == previous + |head| <= code.Length && previous + 1 < code.Length && head == code[previous..at]
      requires (t.Char? && q.min == 1 && head != []) || at + |SingleHead(t, q.min)| <= code.Length
      requires match t
               case Char(_) => code[previous] == OP_CHARS && (if head == [] then code[previous + 1] == 1 else |head| >= 2 && head[1] < 255)
               case NotChar(_) => code[previous] == OP_NOT && head == []
               case Type(op) => code[previous] == TypeByte(op) && head == []
      modifies code
      ensures next == at + if t.Char? && q.min == 1 && head != [] then 0 else |SingleHead(t, q.min)|
      ensures next <= code.Length && code[..next] == old(code[..previous]) +
              if t.Char? && q.min == 1 && head != [] then head[1 := head[1] + 1] else head + SingleHead(t, q.min)
    {
      next := at;
      assert code[..at] == code[..previous] + head;
      if q.min != 1 {
        next := StoreCount(next, OP_EXACT + opType, q.min);
      } else if code[previous] == OP_CHARS {
        if next == previous {
          next := next + 2;
        } else {
          assert head[1] == code[previous + 1];
          code[previous + 1] := code[previous + 1] + 1;
          assert code[previous..at] == head[1 := head[1] + 1];
          assert code[..at] == code[..previous] + code[previous..at];
        }
      } else if code[previous] == OP_NOT {
        next := next + 1;
      }
    }

    /**
     * A repeat of the byte or type `c`. The item it applies to has been taken off the code (`head`
     * is what is left of a longer literal run), but its first bytes still stand at `previous`.
     */
    method OutputSingle(previous: nat, at: nat, c: byte, opType: byte, q: Quant, ghost t: Test, ghost head: seq<byte>)
      returns (next: nat)
      requires q.Rep? && q.Valid() && t.Valid() && !t.Class? && c == Operand(t) && OP_STAR + opType == RepeatBase(t)
      requires at == previous + |head| <= code.Length && previous + 1 < code.Length && head == code[previous..at]
      requires ValidCode(LowerSingle(t, q.min, q.max, q.lazy)) && ValidCode(LowerRest(t, q.min, q.max, q.lazy))
      requires at + (if t.Char? && q.min == 1 && q.max >= 0 && head != [] then 1 + |EncCode(LowerRest(t, q.min, q.max, q.lazy))|
                     else |EncCode(LowerSingle(t, q.min, q.max, q.lazy))|) <= code.Length
      requires match t
               case Char(_) => code[previous] == OP_CHARS && (if head == [] then code[previous + 1] == 1 else |head| >= 2 && head[1] < 255)
               case NotChar(_) => code[previous] == OP_NOT && head == []
               case Type(op) => code[previous] == TypeByte(op) && head == []
      modifies code
      ensures next <= code.Length && code[..next] == old(code[..previous]) +
              if t.Char? && q.min == 1 && q.max >= 0 && head != []
              then head[1 := head[1] + 1] + [c] + EncCode(LowerRest(t, q.min, q.max, q.lazy))
              else head + EncCode(LowerSingle(t, q.min, q.max, q.lazy))
    {
      hide EncCode, LowerSingle, LowerRest, ByteRepeat, SingleHead;
      SingleText(t, q.min, q.max, q.lazy);
      ghost var pre := code[..previous];
      assert code[..at] == pre + head;
      if q.max == 0 {
        next := at;
      } else if q.min == 0 || (q.min == 1 && q.max == -1) {
        next := RepeatPlain(at, c, opType, q);
        Assoc(pre, head, EncCode(LowerSingle(t, q.min, q.max, q.lazy)));
      } else {
        next := Mandatory(previous, at, opType, q, t, head);
        next := RepeatRest(next, c, opType, q, t);
      }
    }

    // ----- literals, types and classes with a quantifier -----

    /** Takes the last byte off a run; a run of one byte goes altogether. */
    method TakeLast(previous: nat, at: nat, ghost run: seq<byte>) returns (next: nat, c: byte)
      requires 1 <= |run| <= MAXLIT && at == previous + 2 + |run| <= code.Length
      requires code[previous..at] == [OP_CHARS, |run|] + run
      modifies code
      ensures c == run[|run| - 1] && next == previous + |LitHead(run)| && code[previous..next] == LitHead(run)
      ensures code[..previous] == old(code[..previous])
      ensures code[previous] == OP_CHARS && code[previous + 1] == if |run| == 1 then 1 else |run| - 1
    {
      ghost var all, n := code[previous..at], |run| - 1;
      assert code[previous] == all[0] && code[previous + 1] == all[1] && code[at - 1] == all[2 + n];
      assert code[previous + 2..at - 1] == all[2..2 + n] == run[..n];
      next := at - 1;
      c := code[next];
      if next == previous + 2 {
        next := previous;
      } else {
        code[previous + 1] := code[previous + 1] - 1;
        assert code[previous..next] == [code[previous], code[previous + 1]] + code[previous + 2..next];
      }
    }

    /** The last byte of a run, taken off it and repeated. */
    method RepeatLiteral(previous: nat, at: nat, q: Quant, ghost run: seq<byte>) returns (next: nat)
      requires q.Rep? && q.Valid() && 1 <= |run| <= MAXLIT && at == previous + 2 + |run|
      requires previous + 2 + |run| + ByteQuantLength(q) <= code.Length && at <= code.Length
      requires code[previous..at] == [OP_CHARS, |run|] + run
      modifies code
      ensures ValidCode(LowerLit(run, q)) && next <= code.Length
      ensures code[..next] == old(code[..previous]) + EncCode(LowerLit(run, q))
    {
      hide EncCode, LowerLit, LowerSingle, LowerRest;
      LitParts(run, q);
      var last, c := TakeLast(previous, at, run);
      next := OutputSingle(previous, last, c, 0, q, Char(c), LitHead(run));
    }

    /** A negated byte or a character type with a quantifier. */
    method RepeatSingle(previous: nat, at: nat, q: Quant, ghost t: Test) returns (next: nat)
      requires q.Rep? && q.Valid() && (t.NotChar? || t.Type?) && at == previous + |EncTest(t)|
      requires previous + |EncTest(t)| + 1 + ByteQuantLength(q) <= code.Length && previous + 1 < code.Length
      requires code[previous..at] == EncTest(t)
      modifies code
      ensures ValidCode(LowerTest(t, q)) && next <= code.Length
      ensures code[..next] == old(code[..previous]) + EncCode(LowerTest(t, q))
    {
      hide EncCode, LowerSingle, LowerRest;
      SingleText(t, q.min, q.max, q.lazy);
      TestFits(t, q);
      assert code[previous] == EncTest(t)[0];
      if code[previous] == OP_NOT {
        assert code[previous + 1] == EncTest(t)[1];
        next := OutputSingle(previous, previous, code[previous + 1], OP_NOTSTAR - OP_STAR, q, t, []);
      } else {
        next := OutputSingle(previous, previous, code[previous], OP_TYPESTAR - OP_STAR, q, t, []);
      }
    }

    /** A class with a quantifier: the repeat follows the map. */
    method RepeatClass(previous: nat, at: nat, q: Quant, ghost t: Test) returns (next: nat)
      requires q.Rep? && q.Valid() && t.Class? && t.Valid() && at == previous + 33 && at + ClassQuantLength(q) <= code.Length
      requires code[..at] == code[..previous] + EncTest(t)
      modifies code
      ensures ValidCode(LowerTest(t, q)) && next <= code.Length
      ensures code[..next] == old(code[..previous]) + EncCode(LowerTest(t, q))
    {
      TestValid(t, q);
      ghost var rep := ClassRepeat(q.min, q.max, q.lazy);
      var repeatType := LazyBit(q.lazy);
      if q.max == 0 {
        next := previous;
        EmptyText();
        return;
      }
      if q.min == 0 && q.max == -1 {
        next := Store(at, OP_CRSTAR + repeatType);
      } else if q.min == 1 && q.max == -1 {
        next := Store(at, OP_CRPLUS + repeatType);
      } else if q.min == 0 && q.max == 1 {
        next := Store(at, OP_CRQUERY + repeatType);
      } else {
        next := Store(at, OP_CRRANGE + repeatType);
        PutAt(next, q.min);
        next := next + 2;
        PutAt(next, if q.max == -1 then 0 else q.max);
        next := next + 2;
      }
      UnitText(Many(t, q.min, q.max, q.lazy, false));
      assert code[..next] == old(code[..previous]) + EncTest(t) + rep;
      Assoc(old(code[..previous]), EncTest(t), rep);
    }

    // ----- groups with a quantifier -----

    /** The link at `at`. */
    function Link(at: nat): nat
      requires at + 1 < code.Length
      reads code
    {
      Get(code[..], at)
    }

    /** `a`, headed by `op`, stands at `pc` and is the rest of group `g`, which ends at `at`. */
    ghost predicate Heads(pc: nat, at: nat, op: byte, a: Choice, g: Node)
      requires at <= code.Length
      reads code
    {
      Layout.AltsAt(code[..at] + [OP_END], pc, op, a, g, Machine.Top(Empty, -1))
    }

    lemma NextHead(pc: nat, at: nat, op: byte, a: Choice, g: Node)
      requires at < code.Length <= MAX_PATTERN_SIZE && Heads(pc, at, op, a, g)
      ensures pc + 3 < at
      ensures var next := pc + Link(pc + 1);
              && pc < next && next + 3 <= at
              && (a.Or? ==> Heads(next, at, OP_ALT, a.more, g) && code[next] == OP_ALT)
              && (a.Only? ==> code[next] == KetByte(g.ket) && next + 3 == at)
    {
      hide EncNode, EncChoice, EncCode, Layout.Placed, Layout.AltsAt;
      var whole, k := code[..at] + [OP_END], Machine.Top(Empty, -1);
      Layout.AtHeader(whole, pc, op, a, g, 0, k);
      EmptyText();
      assert Layout.Text(k) == [OP_END];
    }

    /** The ket of the group at `previous`, by following the links of its alternatives. */
    method FindKet(previous: nat, at: nat, ghost g: Node) returns (ket: nat)
      requires previous < at < code.Length <= MAX_PATTERN_SIZE
      requires g.Bra? && g.ket.Plain? && ValidNode(g) && code[previous..at] == EncNode(g)
      ensures ket + 3 == at && code[ket] == OP_KET
    {
      hide EncNode, EncChoice, EncCode, Layout.AltsAt;
      ghost var a := g.alts;
      assert Heads(previous, at, BraByte(g.cap), a, g) by {
        AtGroup(code[..previous], g);
        assert code[..at] == code[..previous] + EncNode(g);
      }
      NextHead(previous, at, BraByte(g.cap), a, g);
      ket := previous + Link(previous + 1);
      while code[ket] != OP_KET
        invariant ket + 3 <= at
        invariant a.Or? ==> code[ket] == OP_ALT && Heads(ket, at, OP_ALT, a.more, g)
        invariant a.Only? ==> code[ket] == OP_KET && ket + 3 == at
        decreases a
      {
        a := a.more;
        NextHead(ket, at, OP_ALT, a, g);
        ket := ket + Link(ket + 1);
      }
    }

    /** A place in code that has only been added to. */
    lemma Kept(next: nat, was: seq<byte>, x: seq<byte>, from: nat, to: nat)
      requires next <= code.Length && code[..next] == was + x && from <= to <= |was|
      ensures code[from..to] == was[from..to]
    {
      assert code[from..to] == code[..next][from..to];
    }

    /** More copies of the group at `previous`. */
    method Replicate(previous: nat, at: nat, len: nat, n: nat) returns (next: nat)
      requires previous + len <= at && at + n * len <= code.Length
      modifies code
      ensures next == at + n * len
      ensures code[..next] == old(code[..at]) + Copies(old(code[previous..previous + len]), n)
    {
      ghost var g, was := code[previous..previous + len], code[..at];
      next := at;
      var i := 0;
      while i < n
        invariant 0 <= i <= n && next == at + i * len
        invariant code[..next] == was + Copies(g, i)
      {
        Spare(i, n, len);
        Kept(next, was, Copies(g, i), previous, previous + len);
        next := Copy(next, previous, len);
        CopiesSnoc(g, i);
        Assoc(was, Copies(g, i), g);
        i := i + 1;
      }
    }

    /** One more pending bracket, chained to the one around it. */
    method OpenOne(at: nat, zero: byte, bralink: Option<nat>, ghost pre: seq<byte>, ghost g: seq<byte>, ghost m: nat)
      returns (next: nat, link: Option<nat>)
      requires at + 4 <= code.Length <= MAX_PATTERN_SIZE
      requires code[..at] == pre + Pending(g, m, zero) && bralink == Chained(pre, g, m, zero)
      modifies code
      ensures next == at + 4 && link == Chained(pre, g, m + 1, zero)
      ensures code[..next] == old(code[..at]) + ([zero, OP_BRA] + Put(if m == 0 then 0 else |g| + 4))
    {
      next := Store(at, zero);
      next := Store(next, OP_BRA);
      var offset := if bralink.None? then 0 else next - bralink.value;
      link := Some(next);
      assert offset == if m == 0 then 0 else |g| + 4;
      PutAt(next, offset);
      next := next + 2;
    }

    /** A pending bracket and its copy of the group at `previous`. */
    method NestOne(previous: nat, at: nat, len: nat, zero: byte, bralink: Option<nat>, ghost pre: seq<byte>, ghost g: seq<byte>, ghost m: nat)
      returns (next: nat, link: Option<nat>)
      requires previous + len <= at && at + 4 + len <= code.Length <= MAX_PATTERN_SIZE
      requires code[previous..previous + len] == g
      requires code[..at] == pre + Pending(g, m, zero) && bralink == Chained(pre, g, m, zero)
      modifies code
      ensures next == at + 4 + len && code[previous..previous + len] == g
      ensures code[..next] == pre + Pending(g, m + 1, zero) && link == Chained(pre, g, m + 1, zero)
    {
      hide Pending, Put;
      ghost var was := code[..at];
      ghost var head := [zero, OP_BRA] + Put(if m == 0 then 0 else |g| + 4);
      assert was[previous..previous + len] == g;
      next, link := OpenOne(at, zero, bralink, pre, g, m);
      Kept(next, was, head, previous, previous + len);
      next := Copy(next, previous, len);
      Assoc(was, head, g);
      PendingStep(pre, g, m, zero);
      Kept(next, was, head + g, previous, previous + len);
    }

    /** The last optional copy, which needs no bracket around it. */
    method LastCopy(previous: nat, at: nat, len: nat, zero: byte, ghost g: seq<byte>) returns (next: nat)
      requires previous + len <= at && at + 1 + len <= code.Length && code[previous..previous + len] == g
      modifies code
      ensures next == at + 1 + len && code[..next] == old(code[..at]) + ([zero] + g)
    {
      ghost var was := code[..at];
      assert was[previous..previous + len] == g;
      next := Store(at, zero);
      Kept(next, was, [zero], previous, previous + len);
      next := Copy(next, previous, len);
      Assoc(was, [zero], g);
    }

    /** Optional copies, all but the last of them opening a new nesting. */
    method Nest(previous: nat, at: nat, len: nat, zero: byte, count: nat, bralink: Option<nat>,
                ghost pre: seq<byte>, ghost g: seq<byte>, ghost m: nat)
      returns (next: nat, link: Option<nat>)
      requires count > 0 && previous + len <= at <= code.Length && |pre| + |Pending(g, m + count - 1, zero)| + 1 + len <= code.Length <= MAX_PATTERN_SIZE
      requires code[previous..previous + len] == g
      requires code[..at] == pre + Pending(g, m, zero) && bralink == Chained(pre, g, m, zero)
      modifies code
      ensures next <= code.Length
      ensures code[..next] == pre + Pending(g, m + count - 1, zero) + ([zero] + g) && link == Chained(pre, g, m + count - 1, zero)
    {
      hide Pending, Chained;
      next, link := at, bralink;
      var i: int := count - 1;
      while i > 0
        invariant 0 <= i < count
        invariant previous + len <= next <= code.Length && code[previous..previous + len] == g
        invariant code[..next] == pre + Pending(g, m + count - 1 - i, zero)
        invariant link == Chained(pre, g, m + count - 1 - i, zero)
      {
        PendingGrows(g, m + count - 1 - i, m + count - 1, zero);
        next, link := NestOne(previous, next, len, zero, link, pre, g, m + count - 1 - i);
        i := i - 1;
      }
      next := LastCopy(previous, next, len, zero, g);
    }

    lemma LinkIs(at: nat, head: seq<byte>, d: nat, tail: seq<byte>)
      requires at <= code.Length && code[..at] == head + Put(d) + tail && d < 0x1_0000
      ensures |head| + 2 <= at && Link(|head|) == d
    {
    }

    method PatchLink(link: nat, at: nat, d: nat, ghost head: seq<byte>, ghost tail: seq<byte>, ghost was: nat)
      requires link == |head| && at <= code.Length && code[..at] == head + Put(was) + tail
      modifies code
      ensures code[..at] == head + Put(d) + tail
    {
      PutAt(link, d);
      assert code[link + 2..at] == old(code[..at])[link + 2..] == tail;
      assert code[..at] == code[..link + 2] + code[link + 2..at];
    }

    /** Closes the bracket whose link field is at `bralink`: its ket, and the distance in both. */
    method CloseBracket(at: nat, bralink: nat, ghost head: seq<byte>, ghost chain: nat, ghost inner: seq<byte>)
      returns (next: nat, oldlink: nat)
      requires at + 3 <= code.Length <= MAX_PATTERN_SIZE && chain < 0x1_0000
      requires 0 < bralink == |head| && code[..at] == head + Put(chain) + inner
      modifies code
      ensures next == at + 3 && oldlink == chain
      ensures code[..next] == head + Put(3 + |inner|) + inner + [OP_KET] + Put(3 + |inner|)
    {
      LinkIs(at, head, chain, inner);
      var offset := at - bralink + 1;
      var bra := at - offset;
      oldlink := Link(bra + 1);
      ghost var ket := [OP_KET] + Put(offset);
      next := StoreCount(at, OP_KET, offset);
      Assoc(head + Put(chain), inner, ket);
      PatchLink(bra + 1, next, offset, head, inner + ket, chain);
      KetLast(head + Put(offset), inner, offset);
    }

    /** Closes the innermost pending bracket and turns to the one around it. */
    method CloseOne(at: nat, bralink: nat, ghost pre: seq<byte>, ghost g: seq<byte>, ghost m: nat, ghost r: nat, ghost zero: byte)
      returns (next: nat, link: Option<nat>)
      requires m > 0 && r > 0 && at + 3 <= code.Length <= MAX_PATTERN_SIZE
      requires Some(bralink) == Chained(pre, g, m, zero)
      requires code[..at] == pre + Pending(g, m, zero) + Optional(g, r, zero)
      modifies code
      ensures next == at + 3 && link == Chained(pre, g, m - 1, zero)
      ensures code[..next] == pre + Pending(g, m - 1, zero) + Optional(g, r + 1, zero)
    {
      hide Pending, Optional, Chained, Put;
      ghost var head, inner := pre + Pending(g, m - 1, zero) + [zero, OP_BRA], g + Optional(g, r, zero);
      ghost var chain := if m == 1 then 0 else |g| + 4;
      PendingText(pre, g, m, r, zero);
      ChainedBack(pre, g, m, zero);
      var oldlink;
      next, oldlink := CloseBracket(at, bralink, head, chain, inner);
      link := if oldlink == 0 then None else Some(bralink - oldlink);
      OptionalStep(pre + Pending(g, m - 1, zero), g, r, zero);
    }

    /** Closes all pending brackets, the innermost first. */
    method CloseAll(at: nat, bralink: Option<nat>, ghost pre: seq<byte>, ghost g: seq<byte>, ghost m: nat, ghost zero: byte)
      returns (next: nat)
      requires |pre| + |Optional(g, m + 1, zero)| <= code.Length <= MAX_PATTERN_SIZE && at <= code.Length
      requires bralink == Chained(pre, g, m, zero)
      requires code[..at] == pre + Pending(g, m, zero) + Optional(g, 1, zero)
      modifies code
      ensures next == |pre| + |Optional(g, m + 1, zero)|
      ensures code[..next] == pre + Optional(g, m + 1, zero)
    {
      hide Pending, Optional;
      next := at;
      var link := bralink;
      ghost var k: nat := m;
      while link.Some?
        invariant k <= m && next <= code.Length && link == Chained(pre, g, k, zero)
        invariant code[..next] == pre + Pending(g, k, zero) + Optional(g, m + 1 - k, zero)
        decreases k
      {
        NestSize(g, k, m + 1 - k, zero);
        next, link := CloseOne(next, link.value, pre, g, k, m + 1 - k, zero);
        k := k - 1;
      }
      PendingNone(g, zero);
    }

    /** The optional copies of a group, after `m` that were already set up. */
    method Options(previous: nat, at: nat, len: nat, zero: byte, count: nat, bralink: Option<nat>,
                   ghost pre: seq<byte>, ghost g: seq<byte>, ghost m: nat)
      returns (next: nat)
      requires count > 0 && previous + len <= at <= code.Length <= MAX_PATTERN_SIZE
      requires |pre| + |Optional(g, m + count, zero)| <= code.Length
      requires code[previous..previous + len] == g
      requires code[..at] == pre + Pending(g, m, zero) && bralink == Chained(pre, g, m, zero)
      modifies code
      ensures next <= code.Length && code[..next] == pre + Optional(g, m + count, zero)
    {
      hide Pending, Chained, Optional;
      NestSize(g, m + count - 1, 1, zero);
      OptionalOne(g, zero);
      var link;
      next, link := Nest(previous, at, len, zero, count, bralink, pre, g, m);
      next := CloseAll(next, link, pre, g, m + count - 1, zero);
    }

    /** BRAZERO goes in front of the group, which moves up. */
    method InsertZero(previous: nat, at: nat, zero: byte, ghost g: seq<byte>) returns (next: nat)
      requires previous <= at < code.Length && code[previous..at] == g
      modifies code
      ensures next == at + 1 && code[..next] == old(code[..previous]) + ([zero] + g)
    {
      MoveUp(previous, at - previous, 1);
      next := at + 1;
      code[previous] := zero;
      assert code[previous + 1..next] == g;
      assert code[..next] == code[..previous] + ([code[previous]] + code[previous + 1..next]);
    }

    /** The header of the outermost pending bracket, in front of a group that is in place already. */
    method NestHeader(previous: nat, at: nat, zero: byte, ghost g: seq<byte>)
      requires previous + 4 <= at <= code.Length && code[previous + 4..at] == g
      modifies code
      ensures code[previous + 4..at] == g
      ensures code[..at] == old(code[..previous]) + ([zero, OP_BRA] + Put(0) + g)
    {
      hide Put;
      code[previous] := zero;
      code[previous + 1] := OP_BRA;
      ghost var head, tail := code[..previous + 2], code[previous + 4..];
      assert tail[..|g|] == g && head == old(code[..previous]) + [zero, OP_BRA];
      PutAt(previous + 2, 0);
      Overwritten(at, head, Put(0), tail, g);
    }

    lemma Overwritten(at: nat, head: seq<byte>, link: seq<byte>, tail: seq<byte>, g: seq<byte>)
      requires code[..] == head + link + tail && at == |head| + |link| + |g| <= code.Length && |g| <= |tail| && tail[..|g|] == g
      ensures code[..at] == head + link + g && code[|head| + |link|..at] == g
    {
    }

    /** BRAZERO and a pending bracket go in front of the group, which moves up. */
    method InsertNest(previous: nat, at: nat, zero: byte, ghost g: seq<byte>) returns (next: nat, bralink: Option<nat>)
      requires previous <= at && at + 4 <= code.Length && code[previous..at] == g
      modifies code
      ensures next == at + 4 && code[previous + 4..next] == g
      ensures bralink == Chained(old(code[..previous]), g, 1, zero)
      ensures code[..next] == old(code[..previous]) + Pending(g, 1, zero)
    {
      MoveUp(previous, at - previous, 4);
      next := at + 4;
      NestHeader(previous, next, zero, g);
      bralink := Some(previous + 2);
      PendingNone(g, zero);
      FirstPending(g, zero);
    }

    /** Makes the group that ends the code repeat without limit. */
    method SetLoop(at: nat, ketoffset: nat, lazy: bool, ghost x: seq<byte>, ghost cap: nat, ghost a: Choice)
      requires cap < 0x1_0000 && ValidChoice(a) && Labelled(cap, a) && ketoffset == 3 <= at <= code.Length
      requires code[..at] == x + EncNode(Bra(cap, a, Plain))
      modifies code
      ensures code[..at] == x + EncNode(Bra(cap, a, Loop(lazy)))
    {
      hide EncNode;
      LoopText(cap, a, lazy);
      code[at - ketoffset] := OP_KETRMAX + LazyBit(lazy);
    }

    /** {0,m} with m > 0, or {0,}. */
    method RepeatFromZero(previous: nat, at: nat, q: Quant, ketoffset: nat, ghost cap: nat, ghost a: Choice) returns (next: nat)
      requires q.Rep? && q.Valid() && q.min == 0 && q.max != 0 && (q.max == -1 ==> ketoffset == 3)
      requires cap < 0x1_0000 && ValidChoice(a) && Labelled(cap, a)
      requires previous + 3 < at < code.Length <= MAX_PATTERN_SIZE && code[previous..at] == EncNode(Bra(cap, a, Plain))
      requires q.max > 0 ==> previous + |Optional(EncNode(Bra(cap, a, Plain)), q.max, OP_BRAZERO + LazyBit(q.lazy))| <= code.Length
      modifies code
      ensures next <= code.Length
      ensures code[..next] == old(code[..previous]) +
              if q.max > 0 then Optional(EncNode(Bra(cap, a, Plain)), q.max, OP_BRAZERO + LazyBit(q.lazy))
              else [OP_BRAZERO + LazyBit(q.lazy)] + EncNode(Bra(cap, a, Loop(q.lazy)))
    {
      hide EncNode, Pending, Optional, Chained;
      ghost var g, pre := EncNode(Bra(cap, a, Plain)), code[..previous];
      var zero := OP_BRAZERO + LazyBit(q.lazy);
      var len := at - previous;
      if q.max > 1 {
        NestSize(g, 1, q.max - 1, zero);
        FirstPending(g, zero);
        OptionalSome(g, q.max - 1, zero);
        var link;
        next, link := InsertNest(previous, at, zero, g);
        next := Options(previous + 4, next, len, zero, q.max - 1, link, pre, g, 1);
      } else {
        next := InsertZero(previous, at, zero, g);
        if q.max == 1 {
          OptionalOne(g, zero);
        } else {
          Assoc(pre, [zero], g);
          SetLoop(next, ketoffset, q.lazy, pre + [zero], cap, a);
          Assoc(pre, [zero], EncNode(Bra(cap, a, Loop(q.lazy))));
        }
      }
    }

    /** {n,m} or {n,} with n > 0. */
    method RepeatFromSome(previous: nat, at: nat, q: Quant, ketoffset: nat, ghost cap: nat, ghost a: Choice) returns (next: nat)
      requires q.Rep? && q.Valid() && q.min > 0 && (q.max == -1 ==> ketoffset == 3)
      requires cap < 0x1_0000 && ValidChoice(a) && Labelled(cap, a)
      requires previous + 3 < at < code.Length <= MAX_PATTERN_SIZE && code[previous..at] == EncNode(Bra(cap, a, Plain))
      requires var g := EncNode(Bra(cap, a, Plain));
               previous + |Copies(g, q.min)| + (if q.max > 0 then |Optional(g, q.max - q.min, OP_BRAZERO + LazyBit(q.lazy))| else 0) <= code.Length
      modifies code
      ensures next <= code.Length
      ensures code[..next] == old(code[..previous]) +
              (var g := EncNode(Bra(cap, a, Plain));
               if q.max > 0 then Copies(g, q.min) + Optional(g, q.max - q.min, OP_BRAZERO + LazyBit(q.lazy))
               else Copies(g, q.min - 1) + EncNode(Bra(cap, a, Loop(q.lazy))))
    {
      hide EncNode, Pending, Optional, Chained;
      ghost var g, pre := EncNode(Bra(cap, a, Plain)), code[..previous];
      var zero := OP_BRAZERO + LazyBit(q.lazy);
      var len := at - previous;
      ghost var n := q.min - 1;
      assert code[..at] == pre + g;
      CopiesSize(g, n);
      CopiesSize(g, n + 1);
      Distribute(n + 1, |g|);
      next := Replicate(previous, at, len, q.min - 1);
      Kept(next, pre + g, Copies(g, n), previous, previous + len);
      hide Copies;
      CopiesFront(pre, g, n);
      if q.max > 0 {
        NoCopies(g, zero);
        if q.max > q.min {
          ghost var base := pre + Copies(g, n + 1);
          PendingNone(g, zero);
          assert None == Chained(base, g, 0, zero) by { NoChain(base, g, zero); }
          next := Options(previous, next, len, zero, q.max - q.min, None, base, g, 0);
          Assoc(pre, Copies(g, n + 1), Optional(g, q.max - q.min, zero));
        }
      } else {
        SetLoop(next, ketoffset, q.lazy, pre + Copies(g, n), cap, a);
        Assoc(pre, Copies(g, n), EncNode(Bra(cap, a, Loop(q.lazy))));
      }
    }

    /** A group with a quantifier: copies of it, moved and chained as the counts require. */
    method RepeatGroup(previous: nat, at: nat, q: Quant, ghost cap: nat, ghost a: Choice) returns (next: nat)
      requires q.Rep? && q.Valid() && cap < 0x1_0000 && ValidChoice(a) && Labelled(cap, a)
      requires previous + 3 < at < code.Length <= MAX_PATTERN_SIZE && code[previous..at] == EncNode(Bra(cap, a, Plain))
      requires ValidCode(LowerRep(cap, a, q.min, q.max, q.lazy))
      requires previous + |EncCode(LowerRep(cap, a, q.min, q.max, q.lazy))| <= code.Length
      modifies code
      ensures next <= code.Length
      ensures code[..next] == old(code[..previous]) + EncCode(LowerRep(cap, a, q.min, q.max, q.lazy))
    {
      hide EncNode, EncCode, LowerRep, Optional, Copies, ValidChoice;
      RepText(cap, a, q.min, q.max, q.lazy);
      NoCopies(EncNode(Bra(cap, a, Plain)), OP_BRAZERO + LazyBit(q.lazy));
      if q.min > 0 { CopiesSnoc(EncNode(Bra(cap, a, Plain)), q.min - 1); }
      LoopText(cap, a, q.lazy);
      var ketoffset := 0;
      if q.max == -1 {
        var ket := FindKet(previous, at, Bra(cap, a, Plain));
        ketoffset := at - ket;
      }
      if q.max == 0 {
        next := previous;
      } else if q.min == 0 {
        next := RepeatFromZero(previous, at, q, ketoffset, cap, a);
      } else {
        next := RepeatFromSome(previous, at, q, ketoffset, cap, a);
      }
    }

    // ----- alternatives -----

    /** Turns one link round. */
    method CloseAlternative(last: nat, at: nat, length: nat, ghost pre: seq<byte>, ghost op: byte, ghost bodies: seq<seq<byte>>, ghost more: seq<seq<byte>>)
      returns (back: nat)
      requires |bodies| > 0 && at <= code.Length <= MAX_PATTERN_SIZE
      requires last == |pre| + |Front(op, bodies)| && length == 3 + |bodies[|bodies| - 1]|
      requires code[..at] == pre + Opened(op, bodies) + Closed(OP_ALT, more)
      modifies code
      ensures back == Back(bodies)
      ensures var n := |bodies| - 1;
              code[..at] == if n == 0 then pre + Closed(op, bodies + more) else pre + Opened(op, bodies[..n]) + Closed(OP_ALT, [bodies[n]] + more)
    {
      hide Opened, Closed, Front, Put;
      ghost var n := |bodies| - 1;
      ghost var head := pre + Front(op, bodies) + [if n == 0 then op else OP_ALT];
      ghost var tail := bodies[n] + Closed(OP_ALT, more);
      OpenParts(pre, op, bodies, Closed(OP_ALT, more));
      BackFits(op, bodies);
      LinkIs(at, head, Back(bodies), tail);
      back := Link(last + 1);
      PatchLink(last + 1, at, length, head, tail, Back(bodies));
      CloseParts(pre, op, bodies, more);
    }

    /** Goes back through the alternatives, reversing the chain of links, and fills in the ket. */
    method CloseGroup(start: nat, lastBranch: nat, at: nat, ghost pre: seq<byte>, ghost op: byte, ghost bodies: seq<seq<byte>>) returns (next: nat)
      requires |bodies| > 0 && at + 3 <= code.Length <= MAX_PATTERN_SIZE
      requires start == |pre| && lastBranch == |pre| + |Front(op, bodies)|
      requires code[..at] == pre + Opened(op, bodies)
      modifies code
      ensures next == at + 3 && code[..next] == pre + Closed(op, bodies) + [OP_KET] + Put(|Closed(op, bodies)|)
    {
      hide Opened, Closed, Front;
      BackFits(op, bodies);
      ghost var n := |bodies|;
      var last, length := lastBranch, at - lastBranch;
      assert bodies[..n] == bodies && bodies[n..] == [];
      NoneClosed(pre + Opened(op, bodies));
      while length > 0
        invariant 0 <= n <= |bodies|
        invariant n > 0 ==>
          && last == |pre| + |Front(op, bodies[..n])| && length == 3 + |bodies[n - 1]|
          && code[..at] == pre + Opened(op, bodies[..n]) + Closed(OP_ALT, bodies[n..])
        invariant n == 0 ==> length == 0 && code[..at] == pre + Closed(op, bodies)
        decreases n
      {
        var prevLength := CloseAlternative(last, at, length, pre, op, bodies[..n], bodies[n..]);
        FrontBack(op, bodies, n);
        length := prevLength;
        last := last - length;
        n := n - 1;
      }
      next := StoreCount(at, OP_KET, at - start);
    }

    // ----- compile_branch and compile_regex -----

    method CompileBranch(b: Branch, start: nat, vary: bool) returns (ok: bool, at: nat, h: Hints)
      requires ValidBranch(b) && NumberedBranch(b, brackets)
      requires start <= code.Length && start + BranchLength(b) < code.Length <= MAX_PATTERN_SIZE
      modifies code, this`brackets
      ensures ok == Repeatable(b)
      ensures ok ==> ValidCode(LowerBranch(b)) && at <= start + BranchLength(b)
      ensures ok ==> code[..at] == old(code[..start]) + EncCode(LowerBranch(b))
      ensures ok ==> h == BranchHints(opt, Fresh(vary), b) && brackets == old(brackets) + BranchCount(b)
      decreases b
    {
      hide EncCode, LowerBranch, LowerPiece, PieceLength, PieceHints, PieceCount;
      at, h := start, Fresh(vary);
      var rest := b;
      BranchValid(b);
      while rest.Cons?
        invariant (rest == b || rest < b) && at <= code.Length
        invariant ValidBranch(rest) && NumberedBranch(rest, brackets) && Repeatable(rest) == Repeatable(b)
        invariant brackets + BranchCount(rest) == old(brackets) + BranchCount(b)
        invariant BranchHints(opt, h, rest) == BranchHints(opt, Fresh(vary), b)
        invariant at + BranchLength(rest) <= start + BranchLength(b)
        invariant ValidCode(LowerBranch(rest)) && code[..at] + EncCode(LowerBranch(rest)) == old(code[..start]) + EncCode(LowerBranch(b))
        decreases rest
      {
        BranchText(rest);
        LengthsPositive(rest);
        ghost var pre := code[..at];
        ok, at, h := CompilePiece(rest.hd, at, h);
        if !ok { return; }
        Assoc(pre, EncCode(LowerPiece(rest.hd)), EncCode(LowerBranch(rest.tl)));
        rest := rest.tl;
      }
      NilText();
      ok := true;
    }

    method CompilePiece(p: Piece, start: nat, h0: Hints) returns (ok: bool, at: nat, h: Hints)
      requires ValidAtom(p.a) && p.q.Valid() && NumberedPiece(p, brackets)
      requires start <= code.Length && start + PieceLength(p) < code.Length <= MAX_PATTERN_SIZE
      modifies code, this`brackets
      ensures ok == (((p.a.Circ? || p.a.Doll?) ==> p.q.Once?) && (p.a.Group? ==> RepeatableAlts(p.a.alts)))
      ensures ok ==> ValidCode(LowerPiece(p)) && at <= start + PieceLength(p)
      ensures ok ==> code[..at] == old(code[..start]) + EncCode(LowerPiece(p))
      ensures ok ==> h == PieceHints(opt, h0, p) && brackets == old(brackets) + PieceCount(p)
      decreases p
    {
      hide EncCode, EncNode, LowerPiece, PieceLength, AtomHints, QuantHints;
      PieceFits(p);
      AtomIs(opt, h0, p.a);
      ok := true;
      match p.a {
        case Lit(run) =>
          at := CompileLiteral(p, start);
          h := LitHints(opt, h0, run);
        case Single(t) =>
          at := CompileSingle(p, start);
          h := SingleHints(h0);
        case Circ =>
          at := Store(start, OP_CIRC);
          h := if opt.multiline && h0.first.Unset? then h0.(first := Nothing) else h0;
          PlainText(p);
          ok := p.q.Once?;
        case Doll =>
          at := Store(start, OP_DOLL);
          h := h0;
          PlainText(p);
          ok := p.q.Once?;
        case Group(_, _) =>
          var f;
          ok, at, f := CompileGroup(p, start, h0.vary);
          h := GroupHints(h0, f, h0.vary);
      }
      h := QuantHints(opt, h, p);
    }

    method CompileLiteral(p: Piece, start: nat) returns (at: nat)
      requires p.a.Lit? && ValidAtom(p.a) && p.q.Valid()
      requires start <= code.Length && start + PieceLength(p) < code.Length
      modifies code
      ensures ValidCode(LowerPiece(p)) && at <= code.Length && code[..at] == old(code[..start]) + EncCode(LowerPiece(p))
    {
      assert p.q.Once? ==> LowerLit(p.a.run, p.q) == Unit(Chars(p.a.run));
      hide EncCode, LowerLit;
      LitFits(p.a.run, p.q);
      at := Literal(start, p.a.run);
      if p.q.Once? {
        UnitText(Chars(p.a.run));
      } else {
        assert code[start..at] == [OP_CHARS, |p.a.run|] + p.a.run;
        at := RepeatLiteral(start, at, p.q, p.a.run);
      }
    }

    method CompileSingle(p: Piece, start: nat) returns (at: nat)
      requires p.a.Single? && ValidAtom(p.a) && p.q.Valid()
      requires start <= code.Length && start + PieceLength(p) < code.Length
      modifies code
      ensures ValidCode(LowerPiece(p)) && at <= code.Length && code[..at] == old(code[..start]) + EncCode(LowerPiece(p))
    {
      hide EncCode, EncTest, LowerTest, LowerPiece, PieceLength, ByteQuantLength, ClassQuantLength;
      var t := p.a.t;
      SingleRoom(p);
      at := SingleItem(start, t);
      if p.q.Once? {
        UnitText(One(t));
      } else if t.Class? {
        OneText(t);
        at := RepeatClass(start, at, p.q, t);
      } else {
        OneText(t);
        Appended(start, at, old(code[..start]), EncTest(t));
        at := RepeatSingle(start, at, p.q, t);
      }
    }

    lemma Appended(start: nat, at: nat, pre: seq<byte>, g: seq<byte>)
      requires at <= code.Length && |pre| == start && code[..at] == pre + g
      ensures at == start + |g| && code[start..at] == g
    {
    }

    /** The opcode of a bracket, and the number that does not fit in it; the link comes later. */
    method Bracket(start: nat, number: nat) returns (skip: nat)
      requires number < 0x1_0000 && start + 6 <= code.Length
      modifies code
      ensures code[..start] == old(code[..start]) && code[start] == BraByte(number)
      ensures skip == |Label(number)| && code[start + 3..start + 3 + skip] == Label(number)
    {
      skip := 0;
      if number > EXTRACT_BASIC_MAX {
        code[start] := OP_BRA + EXTRACT_BASIC_MAX + 1;
        code[start + 3] := OP_BRANUMBER;
        PutAt(start + 4, number);
        skip := 3;
      } else {
        code[start] := OP_BRA + number;
      }
    }

    /** Numbers a capturing group, in the order of opening brackets. */
    method OpenGroup(p: Piece, start: nat) returns (skip: nat)
      requires p.a.Group? && ValidAtom(p.a) && NumberedPiece(p, brackets) && start + 6 <= code.Length
      modifies code, this`brackets
      ensures code[..start] == old(code[..start]) && code[start] == BraByte(p.a.cap)
      ensures skip == |Label(p.a.cap)| && code[start + 3..start + 3 + skip] == Label(p.a.cap)
      ensures brackets == old(brackets) + if p.a.cap > 0 then 1 else 0
      ensures NumberedAlts(p.a.alts, brackets)
    {
      var number := 0;
      if p.a.cap > 0 {
        brackets := brackets + 1;
        number := brackets;
      }
      skip := Bracket(start, number);
    }

    /** A bracket with its number, its alternatives and its quantifier. */
    method CompileGroup(p: Piece, start: nat, vary: bool) returns (ok: bool, at: nat, f: Found)
      requires p.a.Group? && ValidAtom(p.a) && p.q.Valid() && NumberedPiece(p, brackets)
      requires start <= code.Length && start + PieceLength(p) < code.Length <= MAX_PATTERN_SIZE
      modifies code, this`brackets
      ensures ok == RepeatableAlts(p.a.alts)
      ensures ok ==> ValidCode(LowerPiece(p)) && at <= start + PieceLength(p)
      ensures ok ==> code[..at] == old(code[..start]) + EncCode(LowerPiece(p))
      ensures ok ==> f == AltsHints(opt, p.a.alts, vary) && brackets == old(brackets) + PieceCount(p)
      decreases p, 0
    {
      hide EncCode, EncNode, EncChoice, LowerAlts, LowerRep, LowerPiece, AltsHints;
      ghost var cap, alts, a := p.a.cap, p.a.alts, Tagged(p.a.cap, LowerAlts(p.a.alts));
      GroupPieceText(p);
      GroupFits(p);
      GroupRoom(p);
      ghost var pre := code[..start];
      var skip := OpenGroup(p, start);
      ok, at, f := CompileRegex(p.a.alts, start, skip, vary, cap);
      if ok {
        Appended(start, at, pre, EncNode(Bra(cap, a, Plain)));
        if p.q.Rep? { at := RepeatGroup(start, at, p.q, cap, a); }
      }
    }

    /** The alternatives of a bracket whose opcode (and number) stand at `start`. */
    method CompileRegex(alts: Alts, start: nat, skip: nat, vary: bool, ghost cap: nat) returns (ok: bool, at: nat, f: Found)
      requires ValidAlts(alts) && NumberedAlts(alts, brackets) && cap < 0x1_0000 && skip == |Label(cap)|
      requires start <= code.Length && start + 3 + skip + AltsLength(alts) + 3 < code.Length <= MAX_PATTERN_SIZE && AltsLength(alts) >= 0
      requires code[start] == BraByte(cap) && code[start + 3..start + 3 + skip] == Label(cap)
      modifies code, this`brackets
      ensures ok == RepeatableAlts(alts)
      ensures ok ==> ValidChoice(LowerAlts(alts)) && ValidNode(Bra(cap, Tagged(cap, LowerAlts(alts)), Plain))
      ensures ok ==> at < code.Length && code[..at] == old(code[..start]) + EncNode(Bra(cap, Tagged(cap, LowerAlts(alts)), Plain))
      ensures ok ==> f == AltsHints(opt, alts, vary) && brackets == old(brackets) + AltsCount(alts)
      decreases alts
    {
      hide EncCode, EncNode, LowerBranch, LowerAlts, Opened, Closed, Front, Bodies, Put,
           BranchHints, AltsHints, OnTheWay, Progress, BranchCount, BranchLength, Tagged, Label,
           AltsCount, AltsLength, NumberedAlts, RepeatableAlts, Repeatable, ValidAlts, NumberedBranch, ValidBranch;
      ProgressFirst(cap, alts);
      ghost var pre, op, bodies := code[..start], BraByte(cap), Bodies(Tagged(cap, LowerAlts(alts)));
      at := OpenBracket(start, skip, cap);
      var lastBranch, rest, v := start, alts, vary;
      f := Found(Unset, Unset, vary);
      ghost var done: seq<seq<byte>>, x := [], Label(cap);
      assert done + [x] == [x];
      OpenFirst(op, x);
      FirstOnTheWay(opt, alts, vary, f);
      var closed := false;
      while !closed
        invariant 0 <= at < code.Length
        invariant !closed ==>
          && (rest == alts || rest < alts) && ValidAlts(rest) && ValidChoice(LowerAlts(rest))
          && NumberedAlts(rest, brackets) && brackets + AltsCount(rest) == old(brackets) + AltsCount(alts)
          && RepeatableAlts(rest) == RepeatableAlts(alts) && at + AltsLength(rest) + 3 < code.Length
        invariant !closed ==> lastBranch == |pre| + |Front(op, done + [x])| && code[..at] == pre + Opened(op, done + [x])
        invariant !closed ==> Progress(done, x, rest) == bodies && OnTheWay(opt, alts, vary, done == [], f, v, rest)
        invariant closed ==> RepeatableAlts(alts) && code[..at] == pre + Closed(op, bodies) + [OP_KET] + Put(|Closed(op, bodies)|)
        invariant closed ==> f == AltsHints(opt, alts, vary) && brackets == old(brackets) + AltsCount(alts)
        decreases !closed, rest
      {
        AltsRoom(rest);
        AltsStep(rest, brackets);
        ProgressStep(done, x, rest);
        OnTheWayStep(opt, alts, vary, done == [], f, v, rest);
        ghost var enc := EncCode(LowerBranch(rest.b));
        var h;
        ok, at, h := CompileBranch(rest.b, at, v);
        if !ok { return; }
        ghost var all := done + [x + enc];
        BranchAdded(at, lastBranch, pre, op, done, x, enc);
        f := NextFound(code[lastBranch] != OP_ALT, f, h);
        v := h.vary;
        if rest.Last? {
          at := CloseGroup(start, lastBranch, at, pre, op, all);
          closed := true;
        } else {
          lastBranch, at := NextBranch(at, lastBranch, pre, op, all);
          rest := rest.more;
          done, x := all, [];
        }
      }
      ok := true;
      GroupBytes(cap, Tagged(cap, LowerAlts(alts)));
    }

    lemma BranchAdded(at: nat, lastBranch: nat, pre: seq<byte>, op: byte, done: seq<seq<byte>>, x: seq<byte>, enc: seq<byte>)
      requires op != OP_ALT && at <= code.Length && lastBranch == |pre| + |Front(op, done + [x])|
      requires code[..at] == pre + Opened(op, done + [x]) + enc
      ensures code[..at] == pre + Opened(op, done + [x + enc]) && lastBranch == |pre| + |Front(op, done + [x + enc])|
      ensures lastBranch < at && (code[lastBranch] != OP_ALT <==> done == [])
    {
      hide Opened, Front;
      Assoc(pre, Opened(op, done + [x]), enc);
      OpenExtend(op, done, x, enc);
      FrontSame(op, done, x, x + enc);
      HeaderByte(pre, op, done + [x + enc]);
      assert code[lastBranch] == code[..at][lastBranch];
    }

    /** An "or" header, whose link leads back to the alternative before it. */
    method NextBranch(at: nat, lastBranch: nat, ghost pre: seq<byte>, ghost op: byte, ghost bodies: seq<seq<byte>>) returns (branch: nat, next: nat)
      requires |bodies| > 0 && at + 3 <= code.Length
      requires lastBranch == |pre| + |Front(op, bodies)| && code[..at] == pre + Opened(op, bodies)
      modifies code
      ensures next == at + 3 && branch == |pre| + |Front(op, bodies + [[]])|
      ensures code[..next] == pre + Opened(op, bodies + [[]])
    {
      hide Opened, Front, Put;
      BackFits(op, bodies);
      OpenMore(op, bodies);
      FrontNext(op, bodies);
      Assoc(pre, Opened(op, bodies), [OP_ALT] + Put(at - lastBranch));
      branch := at;
      next := StoreCount(at, OP_ALT, at - lastBranch);
    }

    /** The link of a new bracket is zero until it is closed. */
    method OpenBracket(start: nat, skip: nat, ghost cap: nat) returns (at: nat)
      requires skip == |Label(cap)| && start + 3 + skip <= code.Length
      requires code[start] == BraByte(cap) && code[start + 3..start + 3 + skip] == Label(cap)
      modifies code
      ensures at == start + 3 + skip && code[..at] == old(code[..start]) + Opened(BraByte(cap), [Label(cap)])
    {
      PutAt(start + 1, 0);
      at := start + 3 + skip;
      OpenFirst(BraByte(cap), Label(cap));
      assert code[start + 3..at] == Label(cap);
      assert code[..at] == code[..start + 3] + code[start + 3..at];
    }
  }
}
