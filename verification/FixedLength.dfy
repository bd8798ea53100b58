/** find_fixedlength: how far a lookbehind must step back, from a scan of the compiled code. */
module FixedLength {
  import opened Bytes
  import opened Opcodes
  import opened Subject
  import opened Regex
  import opened Program
  import opened Machine
  import opened Layout
  import opened Wrappers
  import opened Widths

  /** -1 stands for "no fixed length". A negated byte and its repeats count as variable. */
  function FixedNode(n: Node): (r: int)
    ensures r >= -1
    decreases n
  {
    match n
    case Chars(run) => |run|
    case One(t) => if t.NotChar? then -1 else 1
    case Many(t, min, max, _, _) => if t.NotChar? || min != max then -1 else min
    case AtStart => 0
    case AtEnd => 0
    case Number(_) => 0
    case Bra(_, alts, _) => FixedChoice(alts)
    case Zero(_, _) => -1
  }

  function FixedCode(c: Code): (r: int)
    ensures r >= -1
    decreases c
  {
    if c.Empty? then 0 else
    var d, rest := FixedNode(c.hd), FixedCode(c.tl);
    if d < 0 || rest < 0 then -1 else d + rest
  }

  function FixedChoice(a: Choice): (r: int)
    ensures r >= -1
    decreases a
  {
    var d := FixedCode(a.c);
    if a.Or? && FixedChoice(a.more) != d then -1 else d
  }

  /** No group inside that can consume repeats without limit. */
  predicate Loopless(n: Node)
    decreases n
  {
    match n
    case Bra(_, alts, ket) => (ket.Plain? || FixedChoice(alts) == 0) && LooplessChoice(alts)
    case Zero(g, _) => Loopless(g)
    case _ => true
  }

  predicate LooplessCode(c: Code)
    decreases c
  {
    c.Then? ==> Loopless(c.hd) && LooplessCode(c.tl)
  }

  predicate LooplessChoice(a: Choice)
    decreases a
  {
    LooplessCode(a.c) && (a.Or? ==> LooplessChoice(a.more))
  }

  // ----- when there is a length -----

  lemma CodeSum(c: Code, i: nat, j: nat)
    requires c.Then? && Takes(c.hd, i) && CodeTakes(c.tl, j)
    ensures CodeTakes(c, i + j)
  {
    assert i <= i + j && Takes(c.hd, i) && CodeTakes(c.tl, (i + j) - i);
  }

  lemma CodeParts(c: Code, m: nat) returns (i: nat)
    requires c.Then? && CodeTakes(c, m)
    ensures i <= m && Takes(c.hd, i) && CodeTakes(c.tl, m - i)
  {
    i :| i <= m && Takes(c.hd, i) && CodeTakes(c.tl, m - i);
  }

  lemma {:induction false} NodeLength(n: Node, m: nat)
    requires ValidNode(n) && FixedNode(n) >= 0
    ensures Countable(n) && (Takes(n, m) <==> m == FixedNode(n))
    decreases n
  {
    if n.Bra? { ChoiceLength(n.alts, m); }
  }

  lemma {:induction false} CodeLength(c: Code, m: nat)
    requires ValidCode(c) && FixedCode(c) >= 0
    ensures CountableCode(c) && (CodeTakes(c, m) <==> m == FixedCode(c))
    decreases c
  {
    if c.Then? {
      var d, rest := FixedNode(c.hd), FixedCode(c.tl);
      NodeLength(c.hd, d);
      CodeLength(c.tl, rest);
      CodeSum(c, d, rest);
      if CodeTakes(c, m) {
        var i := CodeParts(c, m);
        NodeLength(c.hd, i);
        CodeLength(c.tl, m - i);
      }
    }
  }

  lemma {:induction false} ChoiceLength(a: Choice, m: nat)
    requires ValidChoice(a) && FixedChoice(a) >= 0
    ensures CountableChoice(a) && (ChoiceTakes(a, m) <==> m == FixedChoice(a))
    decreases a
  {
    CodeLength(a.c, m);
    if a.Or? { ChoiceLength(a.more, m); }
  }

  lemma {:induction false} NodeVaries(n: Node) returns (i: nat, j: nat)
    requires ValidNode(n) && Countable(n) && FixedNode(n) < 0
    ensures i != j && Takes(n, i) && Takes(n, j)
    decreases n
  {
    if n.Bra? {
      i, j := ChoiceVaries(n.alts);
    } else {
      i, j := n.min, n.min + 1;
    }
  }

  lemma {:induction false} CodeVaries(c: Code) returns (i: nat, j: nat)
    requires ValidCode(c) && CountableCode(c) && FixedCode(c) < 0
    ensures i != j && CodeTakes(c, i) && CodeTakes(c, j)
    decreases c
  {
    var m: nat;
    if FixedNode(c.hd) < 0 {
      i, j := NodeVaries(c.hd);
      m := SomeCodeWidth(c.tl);
      CodeSum(c, i, m);
      CodeSum(c, j, m);
    } else {
      i, j := CodeVaries(c.tl);
      m := SomeWidth(c.hd);
      CodeSum(c, m, i);
      CodeSum(c, m, j);
    }
    i, j := i + m, j + m;
  }

  /** Without a length there are two ways through of different lengths. */
  lemma {:induction false} ChoiceVaries(a: Choice) returns (i: nat, j: nat)
    requires ValidChoice(a) && CountableChoice(a) && FixedChoice(a) < 0
    ensures i != j && ChoiceTakes(a, i) && ChoiceTakes(a, j)
    decreases a
  {
    if FixedCode(a.c) < 0 {
      i, j := CodeVaries(a.c);
    } else if FixedChoice(a.more) < 0 {
      i, j := ChoiceVaries(a.more);
    } else {
      i, j := FixedCode(a.c), FixedChoice(a.more);
      CodeLength(a.c, i);
      ChoiceLength(a.more, j);
    }
  }

  /** There is a length exactly if all ways through have it and nothing stands in the way of counting. */
  lemma FixedIsMeasure(a: Choice)
    requires ValidChoice(a)
    ensures Measures(FixedChoice(a), a)
  {
    if FixedChoice(a) >= 0 {
      forall i: nat ensures ChoiceTakes(a, i) <==> i == FixedChoice(a) { ChoiceLength(a, i); }
      ChoiceLength(a, 0);
    } else if CountableChoice(a) {
      var i, j := ChoiceVaries(a);
    }
  }

  lemma {:induction false} BareNode(n: Node)
    ensures FixedNode(Bare(n)) == FixedNode(n)
    decreases n
  {
    if n.Bra? { BareAlts(n.alts); }
  }

  lemma {:induction false} BareIs(c: Code)
    ensures FixedCode(BareCode(c)) == FixedCode(c)
    decreases c
  {
    if c.Then? {
      BareNode(c.hd);
      BareIs(c.tl);
    }
  }

  /** The numbers of groups do not matter. */
  lemma {:induction false} BareAlts(a: Choice)
    ensures FixedChoice(BareChoice(a)) == FixedChoice(a)
    decreases a
  {
    BareIs(a.c);
    if a.Or? { BareAlts(a.more); }
  }

  // ----- soundness -----

  lemma {:induction false} TestFixed(E: Env, t: Test, n: nat, lazy: bool, st: St, e: St)
    requires t.Valid() && e in TestEnds(E, t, n, n, lazy, st)
    ensures e.pos == st.pos + n
    decreases n
  {
    if n > 0 { TestFixed(E, t, n - 1, lazy, st.(pos := st.pos + 1), e); }
  }

  lemma {:induction false} CodeFrom(E: Env, c: Code, sts: seq<St>, e: St) returns (r: St)
    requires ValidCode(c) && e in CodeEndsAll(E, c, sts)
    ensures r in sts && e in CodeEnds(E, c, r)
    decreases |sts|
  {
    r := sts[0];
    if e !in CodeEnds(E, c, r) { r := CodeFrom(E, c, sts[1..], e); }
  }

  lemma {:induction false} KetFrom(E: Env, g: Node, start: nat, rs: seq<St>, e: St) returns (r: St)
    requires g.Bra? && ValidNode(g) && e in KetEndsAll(E, g, start, rs)
    ensures r in rs && e in KetEnds(E, g, start, r)
    decreases |rs|
  {
    r := rs[0];
    if e !in KetEnds(E, g, start, r) { r := KetFrom(E, g, start, rs[1..], e); }
  }

  lemma {:induction false} NodeFixed(E: Env, n: Node, st: St, e: St)
    requires ValidNode(n) && Loopless(n) && FixedNode(n) >= 0 && e in NodeEnds(E, n, st)
    ensures e.pos == st.pos + FixedNode(n)
    decreases n, 1
  {
    match n
    case Chars(_) =>
    case One(t) => TestFixed(E, t, 1, false, st, e);
    case Many(t, min, _, lazy, _) => TestFixed(E, t, min, lazy, st, e);
    case AtStart =>
    case AtEnd =>
    case Number(_) =>
    case Bra(cap, alts, _) =>
      var r := KetFrom(E, n, st.pos, PassEnds(E, n, st), e);
      var i :| 0 <= i < |PassEnds(E, n, st)| && r == PassEnds(E, n, st)[i];
      ChoiceFixed(E, alts, st, ChoiceEnds(E, alts, st)[i]);
      assert e == r;
  }

  lemma {:induction false} CodeFixed(E: Env, c: Code, st: St, e: St)
    requires ValidCode(c) && LooplessCode(c) && FixedCode(c) >= 0 && e in CodeEnds(E, c, st)
    ensures e.pos == st.pos + FixedCode(c)
    decreases c, 0
  {
    if c.Then? {
      var r := CodeFrom(E, c.tl, NodeEnds(E, c.hd, st), e);
      NodeFixed(E, c.hd, st, r);
      CodeFixed(E, c.tl, r, e);
    }
  }

  /** Every way a bracket of fixed length can match takes exactly that many bytes. */
  lemma {:induction false} ChoiceFixed(E: Env, a: Choice, st: St, e: St)
    requires ValidChoice(a) && LooplessChoice(a) && FixedChoice(a) >= 0 && e in ChoiceEnds(E, a, st)
    ensures e.pos == st.pos + FixedChoice(a)
    decreases a, 0
  {
    if e in CodeEnds(E, a.c, st) {
      CodeFixed(E, a.c, st, e);
    } else {
      ChoiceFixed(E, a.more, st, e);
    }
  }

  /** A group that repeats without limit is counted once: `(?:a)+` is taken for one byte and can match two. */
  lemma LoopMiscounted(E: Env)
    requires E.s == [97, 97]
    ensures var g := Bra(0, Only(Then(Chars([97]), Empty)), Max);
            ValidNode(g) && FixedNode(g) == 1 && exists e :: e in NodeEnds(E, g, St(0, map[])) && e.pos == 2
  {
    var c := Then(Chars([97]), Empty);
    var g, st, st1, st2 := Bra(0, Only(c), Max), St(0, map[]), St(1, map[]), St(2, map[]);
    assert ValidCode(c) && ValidChoice(g.alts);
    assert FixedCode(c) == 1;
    OnePass(E, g, st, st1);
    OnePass(E, g, st1, st2);
    assert KetEnds(E, g, 1, st2)[|KetEnds(E, g, 1, st2)| - 1] == st2;
    assert KetEndsAll(E, g, 1, [st2]) == KetEnds(E, g, 1, st2) + [];
    assert st2 in KetEnds(E, g, 0, st1);
    assert KetEndsAll(E, g, 0, [st1]) == KetEnds(E, g, 0, st1) + [];
    assert st2 in BraEnds(E, g, st);
  }

  lemma OnePass(E: Env, g: Node, st: St, next: St)
    requires E.s == [97, 97] && st.pos < 2 && next == st.(pos := st.pos + 1)
    requires g == Bra(0, Only(Then(Chars([97]), Empty)), Max) && ValidNode(g)
    ensures PassEnds(E, g, st) == [next]
  {
  }

  // ----- the scan -----

  /** The outcome from inside a branch: `length` for the branches before it (-1: none), `sofar` in this one. */
  function Outcome(length: int, sofar: nat, c: Code, later: Later): int {
    var d := FixedCode(c);
    if d < 0 || (length >= 0 && length != sofar + d) then -1
    else if later.More? && FixedChoice(later.alts) != sofar + d then -1
    else sofar + d
  }

  lemma OutcomeFirst(a: Choice)
    ensures Outcome(-1, 0, a.c, LaterOf(a)) == FixedChoice(a)
  {
  }

  lemma OutcomeItem(length: int, sofar: nat, c: Code, later: Later)
    requires c.Then?
    ensures var d := FixedNode(c.hd);
            Outcome(length, sofar, c, later) == if d < 0 then -1 else Outcome(length, sofar + d, c.tl, later)
  {
  }

  lemma OutcomeBranch(length: int, sofar: nat, later: Later)
    ensures Outcome(length, sofar, Empty, later) ==
            if length >= 0 && length != sofar then -1
            else if later.More? then Outcome(sofar, 0, later.alts.c, LaterOf(later.alts)) else sofar
  {
  }

  // ----- what the bytes of an item tell -----

  predicate ClassByte(op: byte) {
    op == OP_CLASS || op == OP_NCLASS
  }

  /** A repeat after a class, read from its bytes: -1 if it varies. */
  function ClassLength(e: seq<byte>): int
    requires |e| > 0
  {
    if OP_CRRANGE <= e[0] <= OP_CRRANGE + 1 && |e| >= 5 && Get(e, 1) == Get(e, 3) then Get(e, 1) else -1
  }

  lemma RangeBytes(min: nat, max: int, lazy: bool)
    requires min <= 65535 && -1 <= max <= 65535 && (max == -1 || (min <= max && 0 < max))
    ensures var e := ClassRepeat(min, max, lazy);
            && |e| > 0 && OP_CRSTAR <= e[0] <= OP_CRRANGE + 1
            && ClassLength(e) == (if min == max then min else -1) && (ClassLength(e) >= 0 ==> |e| == 5)
            && (OP_CRRANGE <= e[0] ==> |e| == 5)
  {
    var e := ClassRepeat(min, max, lazy);
    if e[0] >= OP_CRRANGE {
      assert e[1..3] == Put(min) && e[3..5] == Put(if max == -1 then 0 else max);
      GetPut(e, 1, min);
      GetPut(e, 3, if max == -1 then 0 else max);
    }
  }

  lemma ByteRepeatBytes(base: byte, min: nat, max: int, lazy: bool, counted: bool)
    requires base < 64 && ByteBounds(min, max)
    ensures var e := ByteRepeat(base, min, max, lazy, counted);
            |e| > 0 && base <= e[0] <= base + 8 && (e[0] == base + 8 <==> min == max) && (min == max ==> |e| == 3 && Get(e, 1) == min)
  {
  }

  /** Items other than groups and classes. */
  lemma SimpleBytes(n: Node)
    requires ValidNode(n) && !n.Bra? && !((n.One? || n.Many?) && n.t.Class?)
    ensures var e, op, d := EncNode(n), EncNode(n)[0], FixedNode(n);
            && op < OP_BRA && !ClassByte(op)
            && (op == OP_CHARS ==> |e| >= 2 && d == e[1] && |e| == 2 + d)
            && (op == OP_EXACT || op == OP_TYPEEXACT ==> |e| == 4 && d == Get(e, 1))
            && (OP_NOT_DIGIT <= op <= OP_ANY ==> d == 1 && |e| == 1)
            && (op == OP_CIRC || op == OP_DOLL ==> d == 0 && |e| == 1)
            && (op == OP_BRANUMBER ==> d == 0 && |e| == 3)
            && (d >= 0 ==> op == OP_CHARS || op == OP_EXACT || op == OP_TYPEEXACT || OP_NOT_DIGIT <= op <= OP_ANY
                           || op == OP_CIRC || op == OP_DOLL || op == OP_BRANUMBER)
  {
    FirstByte(n);
    if n.Many? {
      var rep := ByteRepeat(RepeatBase(n.t), n.min, n.max, n.lazy, n.counted);
      ByteRepeatBytes(RepeatBase(n.t), n.min, n.max, n.lazy, n.counted);
      assert EncNode(n) == rep + [Operand(n.t)];
      assert forall i :: 0 <= i < |rep| ==> EncNode(n)[i] == rep[i];
    }
  }

  lemma ClassBytes(n: Node)
    requires ValidNode(n) && (n.One? || n.Many?) && n.t.Class?
    ensures var e := EncNode(n);
            && ClassByte(e[0]) && |e| >= 33
            && (n.One? ==> |e| == 33 && FixedNode(n) == 1)
            && (n.Many? ==> |e| > 33 && OP_CRSTAR <= e[33] <= OP_CRRANGE + 1 && FixedNode(n) == ClassLength(e[33..])
                            && (e[33] >= OP_CRRANGE ==> |e| == 38))
  {
    if n.Many? {
      RangeBytes(n.min, n.max, n.lazy);
      var rep := ClassRepeat(n.min, n.max, n.lazy);
      assert EncNode(n) == EncTest(n.t) + rep;
      assert EncNode(n)[33..] == rep;
    }
  }

  /** The length of one item that is not a bracket, and where the next one is; -1 if it varies. */
  method ItemLength(code: seq<byte>, cc: nat, ghost k: Todo) returns (d: int, next: nat)
    requires Placed(code, k) && cc == Pc(code, k) && k.rest.Then? && !k.rest.hd.Bra?
    ensures d == FixedNode(k.rest.hd)
    ensures d >= 0 ==> Machine.Valid(Next(k)) && Placed(code, Next(k)) && next == Pc(code, Next(k)) && cc < next
  {
    hide Text, EncNode, EncCode;
    ghost var n, e := k.rest.hd, EncNode(k.rest.hd);
    StepOver(code, k);
    TextThen(k);
    var op := code[cc];
    assert op == e[0];
    d, next := -1, cc;
    if ClassByte(op) {
      d, next := ClassItem(code, cc, k);
      return;
    }
    NotClass(n);
    SimpleBytes(n);
    if op == OP_CHARS {
      assert e[1] == code[cc + 1];
      d, next := code[cc + 1], cc + 2 + code[cc + 1];
    } else if op == OP_EXACT || op == OP_TYPEEXACT {
      assert e[1] == code[cc + 1] && e[2] == code[cc + 2];
      d, next := Get(code, cc + 1), cc + 4;
    } else if OP_NOT_DIGIT <= op <= OP_ANY {
      d, next := 1, cc + 1;
    } else if op == OP_CIRC || op == OP_DOLL {
      d, next := 0, cc + 1;
    } else if op == OP_BRANUMBER {
      d, next := 0, cc + 3;
    }
  }

  lemma NotClass(n: Node)
    requires ValidNode(n) && !ClassByte(EncNode(n)[0])
    ensures !((n.One? || n.Many?) && n.t.Class?)
  {
  }

  lemma IsClass(n: Node)
    requires ValidNode(n) && ClassByte(EncNode(n)[0])
    ensures (n.One? || n.Many?) && n.t.Class?
  {
  }

  /** A class and the repeat that may follow it. An OP_CRPLUS is what the scan stops at next. */
  method ClassItem(code: seq<byte>, cc: nat, ghost k: Todo) returns (d: int, next: nat)
    requires Placed(code, k) && cc == Pc(code, k) && k.rest.Then? && cc < |code| && ClassByte(code[cc])
    ensures d == FixedNode(k.rest.hd)
    ensures d >= 0 ==> Machine.Valid(Next(k)) && Placed(code, Next(k)) && next == Pc(code, Next(k)) && cc < next
  {
    hide Text, EncNode, EncCode;
    ghost var n, e := k.rest.hd, EncNode(k.rest.hd);
    StepOver(code, k);
    TextThen(k);
    IsClass(n);
    ClassBytes(n);
    NotClassRepeat(code, Next(k));
    d, next := 1, cc + 33;
    var op := code[next];
    if n.Many? { assert op == e[33]; }
    if OP_CRSTAR <= op < OP_CRRANGE {
      d := -1;
    } else if op == OP_CRRANGE || op == OP_CRRANGE + 1 {
      assert forall i :: 33 <= i < 38 ==> e[i] == code[cc + i];
      if Get(code, next + 1) != Get(code, next + 3) {
        d := -1;
      } else {
        d, next := Get(code, next + 1), next + 5;
      }
    }
  }

  /** The next opcode: a bracket, the end of a branch, or another item. */
  method ItemByte(code: seq<byte>, cc: nat, ghost k: Todo) returns (op: byte)
    requires Placed(code, k) && cc == Pc(code, k)
    ensures cc < |code| && op == code[cc] && op != OP_REVERSE
    ensures op >= OP_BRA <==> k.rest.Then? && k.rest.hd.Bra?
    ensures op == OP_END || OP_ALT <= op <= OP_KETRMIN <==> k.rest.Empty?
    ensures k.rest.Empty? ==> (op == OP_ALT <==> Following(k).More?)
  {
    AtByte(code, k);
    op := code[cc];
    if k.rest.Then? {
      StepOver(code, k);
      FirstByte(k.rest.hd);
    }
  }

  lemma AtGroupItem(code: seq<byte>, k: Todo)
    requires Placed(code, k) && k.rest.Then? && k.rest.hd.Bra?
    ensures Machine.Valid(Next(k)) && Placed(code, Next(k)) && Pc(code, k) < Pc(code, Next(k))
    ensures var n := k.rest.hd; AltsAt(code, Pc(code, k), BraByte(n.cap), n.alts, n, Next(k))
  {
    hide Text, EncNode;
    StepOver(code, k);
    TextThen(k);
    AtBracket(code, k.rest.hd, Next(k));
  }

  /** The alternatives after the innermost branch. */
  function Following(k: Todo): Later {
    if k.In? then k.later else NoMore
  }

  /** The rest of the innermost branch and the alternatives after it. */
  function Remaining(k: Todo): Choice {
    if Following(k).More? then Or(k.rest, Following(k).alts) else Only(k.rest)
  }

  lemma RemainingLength(k: Todo)
    requires Machine.Valid(k)
    ensures Outcome(-1, 0, k.rest, Following(k)) == FixedChoice(Remaining(k)) && ValidChoice(Remaining(k))
    ensures Measures(FixedChoice(Remaining(k)), Remaining(k))
  {
    OutcomeFirst(Remaining(k));
    FixedIsMeasure(Remaining(k));
  }

  /**
   * The common length of the branch `k` after the header at `at` and of the alternatives that
   * follow it, or -1. A branch may begin with OP_REVERSE, and may be ended by OP_END.
   */
  method FindFixedLength(code: seq<byte>, at: nat, ghost k: Todo) returns (r: int)
    requires |code| <= MAX_PATTERN_SIZE && Placed(code, k)
    requires Pc(code, k) == at + 3 || (Pc(code, k) == at + 6 && code[at + 3] == OP_REVERSE)
    ensures r == Outcome(-1, 0, k.rest, Following(k))
    ensures Measures(r, Remaining(k))
    decreases |code| - at
  {
    hide Text, EncNode, EncCode, EncChoice, Placed, AltsAt, Outcome, Measures, Remaining;
    NotReverse(code, k);
    RemainingLength(k);
    var length: int, branchLength: nat, cc := -1, 0, at + 3;
    if code[cc] == OP_REVERSE { cc := cc + 3; }
    ghost var e := k;
    while true
      invariant at < cc && Machine.Valid(e) && Placed(code, e) && cc == Pc(code, e)
      invariant Outcome(length, branchLength, e.rest, Following(e)) == Outcome(-1, 0, k.rest, Following(k))
      decreases |code| - cc
    {
      var opcode := ItemByte(code, cc, e);
      if opcode >= OP_BRA {
        ghost var n, next := e.rest.hd, Next(e);
        AtGroupItem(code, e);
        AtHeader(code, cc, BraByte(n.cap), n.alts, n, 0, next);
        OutcomeItem(length, branchLength, e.rest, Following(e));
        OutcomeFirst(n.alts);
        var d := FindFixedLength(code, cc, Enter(n.alts, n, 0, next));
        if d < 0 { return d; }
        branchLength := branchLength + d;
        var ket := SkipGroup(code, cc, BraByte(n.cap), n.alts, n, next);
        cc, e := ket + 3, next;
      } else if opcode == OP_END || OP_ALT <= opcode <= OP_KETRMIN {
        OutcomeBranch(length, branchLength, Following(e));
        if length < 0 { length := branchLength; } else if length != branchLength { return -1; }
        if opcode != OP_ALT { return length; }
        AtAlt(code, e);
        ghost var alts, g, up := e.later.alts, e.g, e.up;
        AtHeader(code, cc, OP_ALT, alts, g, 0, up);
        cc, branchLength := cc + 3, 0;
        e := Enter(alts, g, 0, up);
      } else {
        OutcomeItem(length, branchLength, e.rest, Following(e));
        var d, next := ItemLength(code, cc, e);
        if d < 0 { return d; }
        branchLength := branchLength + d;
        cc, e := next, Next(e);
      }
    }
  }

  lemma NotReverse(code: seq<byte>, k: Todo)
    requires Placed(code, k)
    ensures Machine.Valid(k) && 0 <= Pc(code, k) < |code| && code[Pc(code, k)] != OP_REVERSE
  {
    hide Text, EncNode;
    AtByte(code, k);
    if k.rest.Then? {
      StepOver(code, k);
      FirstByte(k.rest.hd);
    }
  }

  // ----- lookbehind -----

  /**
   * A branch of a lookbehind has been compiled up to `at`, behind an OP_REVERSE: its length is
   * found, with OP_END put at its end for the time being, and stored as the count of OP_REVERSE.
   */
  method StoreReverse(code: array<byte>, lastBranch: nat, at: nat, ghost c: Code) returns (ok: bool)
    requires lastBranch + 6 <= at < code.Length <= MAX_PATTERN_SIZE && ValidCode(c)
    requires code[lastBranch + 3] == OP_REVERSE && code[lastBranch + 6..at] == EncCode(c)
    modifies code
    ensures Measures(if ok then FixedCode(c) else -1, Only(c))
    ensures code[lastBranch + 6..at] == EncCode(c) && code[lastBranch + 3] == OP_REVERSE && code[..lastBranch + 3] == old(code[..lastBranch + 3])
    ensures ok ==> FixedCode(c) >= 0 && code[lastBranch + 4..lastBranch + 6] == Put(FixedCode(c))
  {
    hide EncCode, Outcome;
    code[at] := OP_END;
    ghost var k := Machine.Top(c, -1);
    ghost var text := code[..at + 1];
    assert text[lastBranch + 6..] == code[lastBranch + 6..at] + [OP_END] == Text(k);
    assert text[|text| - |Text(k)|..] == Text(k);
    var length := FindFixedLength(code[..at + 1], lastBranch, k);
    OutcomeEnd(c);
    ok := length >= 0;
    FixedIsMeasure(Only(c));
    if ok {
      code[lastBranch + 4], code[lastBranch + 5] := length / 256 % 256, length % 256;
    }
  }

  lemma OutcomeEnd(c: Code)
    ensures Outcome(-1, 0, c, NoMore) == FixedCode(c)
  {
  }

  /** OP_REVERSE: back by its count, unless that is before the start of the subject. */
  method StepBack(code: seq<byte>, ecode: nat, eptr: nat) returns (r: Option<nat>)
    requires ecode + 2 < |code|
    ensures r.Some? <==> Get(code, ecode + 1) <= eptr
    ensures r.Some? ==> r.value + Get(code, ecode + 1) == eptr
  {
    if Get(code, ecode + 1) > eptr { return None; }
    return Some(eptr - Get(code, ecode + 1));
  }

  /**
   * A lookbehind steps back by the count that was stored and matches its branch forwards. Wherever
   * the branch matches, it ends where the lookbehind was asked if and only if the length fits in
   * the two bytes of the count.
   */
  lemma LookbehindEnds(E: Env, code: seq<byte>, at: nat, c: Code, st: St, e: St)
    requires ValidCode(c) && LooplessCode(c) && FixedCode(c) >= 0
    requires at + 3 <= |code| && code[at] == OP_REVERSE && code[at + 1..at + 3] == Put(FixedCode(c))
    requires Get(code, at + 1) <= st.pos && e in CodeEnds(E, c, st.(pos := st.pos - Get(code, at + 1)))
    ensures e.pos == st.pos <==> FixedCode(c) < 0x1_0000
  {
    hide CodeEnds, FixedCode, ValidCode, LooplessCode, Put, Get;
    StoredCount(code, at + 1, FixedCode(c));
    CodeFixed(E, c, st.(pos := st.pos - Get(code, at + 1)), e);
  }

  /** PUT keeps the low sixteen bits. */
  lemma StoredCount(code: seq<byte>, at: nat, d: nat)
    requires at + 2 <= |code| && code[at..at + 2] == Put(d)
    ensures Get(code, at) == d % 0x1_0000
  {
    LowBits(d, d / 256);
    assert code[at] == code[at..at + 2][0] && code[at + 1] == code[at..at + 2][1];
  }

  lemma LowBits(d: nat, q: nat)
    requires q == d / 256
    ensures q % 256 * 256 + d % 256 == d % 0x1_0000
  {
    Remainder(d, q / 256, q % 256 * 256 + d % 256);
  }

  lemma Remainder(d: nat, m: nat, r: nat)
    requires d == 0x1_0000 * m + r && r < 0x1_0000
    ensures d % 0x1_0000 == r
  {
  }

  /** The branch of `(?<=a{65535}a)` is 65536 bytes long, and its count is 0. */
  lemma LookbehindWrapped()
    ensures var c := Then(Many(Char(97), 65535, 65535, false, false), Then(Chars([97]), Empty));
            ValidCode(c) && LooplessCode(c) && FixedCode(c) == 0x1_0000 && Put(FixedCode(c)) == [0, 0]
  {
    var tl := Then(Chars([97]), Empty);
    assert ValidCode(tl) && FixedCode(tl) == 1;
  }
}
