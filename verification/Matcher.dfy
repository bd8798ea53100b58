/** `match`: backtracking over the compiled bytes, recording captures in the offset vector. */
module Matcher {
  import opened Wrappers
  import opened Bytes
  import opened Opcodes
  import opened Subject
  import opened Regex
  import opened Program
  import opened Machine
  import opened Layout
  import opened Slots
  import opened Trails

  const MATCH_MATCH := 1
  const MATCH_NOMATCH := 0
  const ERROR_MATCHLIMIT := -8

  const INT_MAX := 0x7FFF_FFFF

  /** Bounds of the common repeats, in opcode order: * *? + +? ? ??; a zero maximum is no limit. */
  const REP_MIN: seq<nat> := [0, 0, 1, 1, 0, 0]
  const REP_MAX: seq<nat> := [0, 0, 0, 0, 1, 1]

  function TypeOfByte(b: byte): TypeOp {
    if b == OP_NOT_DIGIT then NotDigit
    else if b == OP_DIGIT then Digit
    else if b == OP_NOT_WHITESPACE then NotSpace
    else if b == OP_WHITESPACE then Space
    else if b == OP_NOT_WORDCHAR then NotWord
    else if b == OP_WORDCHAR then Word
    else Any
  }

  ghost function Veto(k: Todo): int {
    if k.Top? then k.veto else Veto(k.up)
  }

  /** One turn of the main loop: return a code, or go on from another point at the same level. */
  datatype Turn = Halt(rc: int) | Go(pc: nat, pos: nat, top: nat, b: Chain)

  /** `match_data`, with the compiled code and the subject it is used on. */
  class MatchData {
    const code: seq<byte>
    const E: Env
    const notempty: bool
    const ov: array<int>
    const room: nat          // a third of offset_end
    ghost const groups: nat  // the number of groups in the pattern
    const limit: Option<nat> // match_limit; None lets every match run to its end
    var startMatch: nat
    var endMatch: nat        // end_match_ptr
    var endTop: nat          // end_offset_top
    var captureLast: int
    var calls: nat           // match_call_count
    var overflow: bool       // offset_overflow

    constructor (code: seq<byte>, E: Env, notempty: bool, ov: array<int>, room: nat, limit: Option<nat>, ghost groups: nat)
      ensures this.code == code && this.E == E && this.notempty == notempty && this.ov == ov
      ensures this.room == room && this.limit == limit && this.groups == groups && Flagged(map[])
      ensures !overflow
    {
      this.code, this.E, this.notempty := code, E, notempty;
      this.ov, this.room, this.limit, this.groups := ov, room, limit, groups;
      startMatch, endMatch, endTop, captureLast, calls, overflow := 0, 0, 2, -1, 0, false;
    }

    ghost predicate Valid() {
      |code| <= MAX_PATTERN_SIZE && |E.s| <= INT_MAX && 3 * room <= ov.Length
    }

    /** offset_overflow is set if a capture has no room, and only if there is a group without. */
    ghost predicate Flagged(caps: map<nat, (nat, nat)>)
      reads this`overflow
    {
      (overflow ==> room <= groups) && forall n :: n in caps && n >= room ==> overflow
    }

    lemma FlaggedLess(a: map<nat, (nat, nat)>, b: map<nat, (nat, nat)>)
      requires Flagged(b) && a.Keys <= b.Keys
      ensures Flagged(a)
    {
    }

    // ----- the account of calls and closed groups -----

    /** The call limit has not been passed. */
    ghost predicate Within()
      reads this`calls
    {
      limit.Some? ==> calls <= limit.value
    }

    /** A group without room in the vector is among them. */
    ghost predicate Outgrown(closed: set<nat>) {
      exists n :: n in closed && n >= room
    }

    /** From `calls0`, `over0` on `whole` is to be done; at `calls1`, `over1` what is left of it is `rest`. */
    ghost predicate Balance(calls0: nat, over0: bool, whole: Trail, calls1: nat, over1: bool, rest: Trail) {
      calls1 + rest.calls == calls0 + whole.calls && (over1 || Outgrown(rest.closed) <==> over0 || Outgrown(whole.closed))
    }

    ghost predicate Left(calls0: nat, over0: bool, whole: Trail, rest: Trail)
      reads this`calls, this`overflow
    {
      Within() && Balance(calls0, over0, whole, calls, overflow, rest)
    }

    /** The call limit is passed if and only if `t` is too long; otherwise all of it has been done. */
    ghost predicate Spent(rc: int, calls0: nat, over0: bool, t: Trail)
      reads this`calls, this`overflow
    {
      if rc == ERROR_MATCHLIMIT then limit.Some? && limit.value < calls0 + t.calls else Left(calls0, over0, t, NONE)
    }

    ghost predicate Billed(t: Turn, k1: Todo, st1: St, k: Todo, st: St, b: Chain, calls0: nat, over0: bool)
      requires Fit(E, k, st, b)
      reads this`calls, this`overflow
    {
      match t
      case Halt(rc) => Spent(rc, calls0, over0, Track(E, k, st, b))
      case Go(_, _, _, b1) => Fit(E, k1, st1, b1) && Left(calls0, over0, Track(E, k, st, b), Track(E, k1, st1, b1))
    }

    lemma Idle(t: Trail)
      requires Within()
      ensures Left(calls, overflow, t, t) && Balance(calls, overflow, t, calls, overflow, t)
      ensures Spent(MATCH_NOMATCH, calls, overflow, NONE) && Spent(MATCH_MATCH, calls, overflow, NONE)
    {
    }

    /** After `first`, of what was left. */
    lemma Onward(rc: int, calls0: nat, over0: bool, whole: Trail, calls1: nat, over1: bool, found: bool, first: Trail, second: Trail)
      requires Balance(calls0, over0, whole, calls1, over1, Either(found, first, second))
      requires Spent(rc, calls1, over1, first) && (rc == MATCH_MATCH ==> found)
      requires rc == MATCH_MATCH || rc == MATCH_NOMATCH || rc == ERROR_MATCHLIMIT
      ensures found || rc == ERROR_MATCHLIMIT ==> Spent(rc, calls0, over0, whole)
      ensures !found && rc != ERROR_MATCHLIMIT ==> Left(calls0, over0, whole, second)
    {
    }

    lemma LeftIs(calls0: nat, over0: bool, whole: Trail, rest: Trail)
      requires Left(calls0, over0, whole, rest)
      ensures Within() && Balance(calls0, over0, whole, calls, overflow, rest)
    {
    }

    /** What is left of what was left. */
    lemma LeftOn(calls0: nat, over0: bool, whole: Trail, calls1: nat, over1: bool, mid: Trail, rest: Trail)
      requires Balance(calls0, over0, whole, calls1, over1, mid) && Left(calls1, over1, mid, rest)
      ensures Left(calls0, over0, whole, rest)
    {
    }

    /** `pc`, `pos`, `top`, `b` and the vector `v` represent the machine's state (k, st, b). */
    ghost predicate Stands(v: seq<int>, pc: nat, pos: nat, top: nat, b: Chain, k: Todo, st: St, base: seq<int>)
      reads this`startMatch
    {
      && Placed(code, k) && pc == Pc(code, k) && pos == st.pos
      && Fit(E, k, st, b) && Clean(k, groups)
      && Veto(k) == (if notempty then startMatch else -1)
      && Sync(v, base, k, st, room) && OffsetTop(top, st.caps, room)
    }

    ghost predicate At(pc: nat, pos: nat, top: nat, b: Chain, k: Todo, st: St, base: seq<int>)
      reads this`startMatch, ov
    {
      Stands(ov[..], pc, pos, top, b, k, st, base)
    }

    lemma TooMany(calls0: nat, over0: bool, t: Trail)
      requires limit.Some? && limit.value < calls0 + 1
      ensures Spent(ERROR_MATCHLIMIT, calls0, over0, Called(t))
    {
    }

    /** This call has been counted. */
    lemma Entered(calls0: nat, t: Trail)
      requires Within() && calls == calls0 + 1
      ensures Left(calls0, overflow, Called(t), t)
    {
    }

    /** After a failed attempt from the same point. */
    lemma AtAgain(v: seq<int>, pc: nat, pos: nat, top: nat, b: Chain, k: Todo, st: St, base: seq<int>)
      requires Stands(v, pc, pos, top, b, k, st, base) && Same(ov[..], v, Open(k), room)
      ensures At(pc, pos, top, b, k, st, base)
    {
      SyncBack(v, ov[..], base, k, st, room);
    }

    /** `rc` reports `res`, and the vector holds its captures, or on failure what it held before. */
    ghost predicate Done(rc: int, res: Option<St>, open: set<nat>, was: seq<int>, base: seq<int>)
      reads this, ov
    {
      && (rc == MATCH_MATCH || rc == MATCH_NOMATCH || (rc == ERROR_MATCHLIMIT && limit.Some? && limit.value < calls))
      && (rc == MATCH_MATCH ==>
            && res.Some? && endMatch == res.value.pos && OffsetTop(endTop, res.value.caps, room)
            && Pairs(ov[..], base, {}, res.value.caps, room) && Flagged(res.value.caps))
      && (rc == MATCH_NOMATCH ==> res == None && Same(ov[..], was, open, room))
    }

    /** The turn from (k, st, b) either returns, or goes on in an equivalent, smaller state. */
    ghost predicate Turned(t: Turn, k1: Todo, st1: St, k: Todo, st: St, b: Chain, was: seq<int>, base: seq<int>)
      requires Fit(E, k, st, b)
      reads this, ov
    {
      match t
      case Halt(rc) => Done(rc, Run(E, k, st, b), Open(k), was, base)
      case Go(pc, pos, top, b1) =>
        && At(pc, pos, top, b1, k1, st1, base)
        && Run(E, k1, st1, b1) == Run(E, k, st, b)
        && (st.pos < pos || (st.pos == pos && Weight(k1, pos) < Weight(k, pos)))
        && Open(k1) <= Open(k) && Same(ov[..], was, Open(k), room)
        && Flagged(st1.caps) && st.caps.Keys <= st1.caps.Keys
    }

    /** Past the first item, `n` bytes on. */
    lemma AtNext(pc: nat, pos: nat, top: nat, b: Chain, k: Todo, st: St, base: seq<int>, n: nat)
      requires At(pc, pos, top, b, k, st, base) && k.rest.Then? && pos + n <= |E.s|
      ensures Program.ValidNode(k.rest.hd)
      ensures var enc := EncNode(k.rest.hd);
              && At(pc + |enc|, pos + n, top, b, Next(k), st.(pos := pos + n), base)
              && Open(Next(k)) == Open(k)
              && pc + |enc| < |code| && forall i :: 0 <= i < |enc| ==> enc[i] == code[pc + i]
      ensures Weight(k, pos) == NodeSize(k.rest.hd) + Weight(Next(k), pos)
    {
      FitNext(E, k, st, b, n);
      StepOver(code, k);
    }

    lemma ItemBytes(pc: nat, k: Todo)
      requires Placed(code, k) && k.rest.Then? && pc == Pc(code, k)
      ensures Program.ValidNode(k.rest.hd)
      ensures var enc := EncNode(k.rest.hd);
              pc + |enc| < |code| && code[pc] == enc[0] && forall i :: 0 <= i < |enc| ==> enc[i] == code[pc + i]
    {
    }

    /** The turn that takes an item of `n` bytes which matches. */
    lemma ItemTurn(pc: nat, pos: nat, top: nat, b: Chain, k: Todo, st: St, base: seq<int>, n: nat)
      requires At(pc, pos, top, b, k, st, base) && k.rest.Then? && pos + n <= |E.s|
      requires Fit(E, Next(k), st.(pos := pos + n), b)
      requires Run(E, k, st, b) == Run(E, Next(k), st.(pos := pos + n), b) && Flagged(st.caps)
      ensures Program.ValidNode(k.rest.hd)
      ensures Turned(Go(pc + |EncNode(k.rest.hd)|, pos + n, top, b), Next(k), st.(pos := pos + n), k, st, b, ov[..], base)
    {
      AtNext(pc, pos, top, b, k, st, base, n);
    }

    // ----- single items -----

    /** Compare `length` code bytes at `at` with the subject at `pos`. */
    method SameRun(at: nat, length: nat, pos: nat) returns (same: bool)
      requires at + length <= |code| && pos <= |E.s|
      ensures length > 0 ==> same == RunAt(E, code[at..at + length], pos)
    {
      ghost var run := code[at..at + length];
      if length > |E.s| - pos { return false; }
      var i := 0;
      while i < length
        invariant 0 <= i <= length
        invariant forall m :: 0 <= m < i ==> SameByte(E, run[m], E.s[pos + m])
      {
        if !SameByte(E, code[at + i], E.s[pos + i]) {
          assert run[i] == code[at + i];
          return false;
        }
        i := i + 1;
      }
      return true;
    }

    method Chars(pc: nat, pos: nat, top: nat, b: Chain, ghost k: Todo, ghost st: St, ghost base: seq<int>)
      returns (t: Turn, ghost k1: Todo, ghost st1: St)
      requires Valid() && Within() && Flagged(st.caps) && At(pc, pos, top, b, k, st, base)
      requires k.rest.Then? && k.rest.hd.Chars?
      ensures Turned(t, k1, st1, k, st, b, ov[..], base) && Billed(t, k1, st1, k, st, b, calls, overflow)
    {
      hide Run, RunEnd, Text, EncCode, Placed, Clean, Machine.Valid, Sorted, Covers, Sync, Weight, Flagged, Upto;
      hide Track, Spent, Left, Balance;
      k1, st1 := Next(k), st;
      ItemBytes(pc, k);
      RunItem(E, k, st, b);
      TrackItem(E, k, st, b);
      Idle(Track(E, k, st, b));
      ghost var run, enc := k.rest.hd.run, EncNode(k.rest.hd);
      assert enc[1] == |run| > 0;
      var length: nat := code[pc + 1];
      assert code[pc + 2..pc + 2 + length] == run by {
        assert forall i :: 0 <= i < |run| ==> run[i] == enc[i + 2];
      }
      var same := SameRun(pc + 2, length, pos);
      if !same { return Halt(MATCH_NOMATCH), k1, st1; }
      st1 := st.(pos := pos + length);
      ItemTurn(pc, pos, top, b, k, st, base, length);
      t := Go(pc + 2 + length, pos + length, top, b);
    }

    /** The tests of OP_CIRC. */
    method Circumflex(pos: nat) returns (holds: bool)
      requires pos <= |E.s|
      ensures holds == CircAt(E, pos)
    {
      if E.notbol && pos == 0 { return false; }
      if E.opt.multiline {
        if pos != 0 && E.s[pos - 1] != NEWLINE { return false; }
        return true;
      }
      return pos == 0;
    }

    /** The tests of OP_DOLL, falling through to those of OP_EOD. */
    method Dollar(pos: nat) returns (holds: bool)
      requires pos <= |E.s|
      ensures holds == DollAt(E, pos)
    {
      if E.opt.multiline {
        if pos < |E.s| {
          if E.s[pos] != NEWLINE { return false; }
        } else {
          if E.noteol { return false; }
        }
        return true;
      }
      if E.noteol { return false; }
      if !E.opt.endonly {
        return !(pos < |E.s| - 1 || (pos == |E.s| - 1 && E.s[pos] != NEWLINE));
      }
      return !(pos < |E.s|);
    }

    /** `^`, `$` and the number that may follow a bracket: nothing is consumed. */
    method Assertion(pc: nat, pos: nat, top: nat, b: Chain, ghost k: Todo, ghost st: St, ghost base: seq<int>)
      returns (t: Turn, ghost k1: Todo)
      requires Valid() && Within() && Flagged(st.caps) && At(pc, pos, top, b, k, st, base)
      requires k.rest.Then? && (k.rest.hd.AtStart? || k.rest.hd.AtEnd? || k.rest.hd.Number?)
      ensures Turned(t, k1, st, k, st, b, ov[..], base) && Billed(t, k1, st, k, st, b, calls, overflow)
    {
      hide Run, RunEnd, Text, EncCode, Placed, Clean, Machine.Valid, Sorted, Covers, Sync, Weight, Flagged, Upto;
      hide Track, Spent, Left, Balance;
      k1 := Next(k);
      ItemBytes(pc, k);
      RunItem(E, k, st, b);
      TrackItem(E, k, st, b);
      Idle(Track(E, k, st, b));
      assert st.(pos := pos + 0) == st;
      var holds := true;
      if code[pc] == OP_CIRC {
        holds := Circumflex(pos);
      } else if code[pc] == OP_DOLL {
        holds := Dollar(pos);
      }
      if holds { ItemTurn(pc, pos, top, b, k, st, base, 0); }
      t := if holds then Go(pc + if code[pc] == OP_BRANUMBER then 3 else 1, pos, top, b) else Halt(MATCH_NOMATCH);
    }

    /** A character type or a negated byte. */
    method OneByte(pc: nat, pos: nat, top: nat, b: Chain, ghost k: Todo, ghost st: St, ghost base: seq<int>)
      returns (t: Turn, ghost k1: Todo, ghost st1: St)
      requires Valid() && Within() && Flagged(st.caps) && At(pc, pos, top, b, k, st, base)
      requires k.rest.Then? && k.rest.hd.One? && !k.rest.hd.t.Class?
      ensures Turned(t, k1, st1, k, st, b, ov[..], base) && Billed(t, k1, st1, k, st, b, calls, overflow)
    {
      hide Run, RunEnd, Text, EncCode, Placed, Clean, Machine.Valid, Sorted, Covers, Sync, Weight, Flagged, Upto;
      hide Track, Spent, Left, Balance;
      k1, st1 := Next(k), st;
      ItemBytes(pc, k);
      RunItem(E, k, st, b);
      TrackItem(E, k, st, b);
      Idle(Track(E, k, st, b));
      ghost var enc := EncNode(k.rest.hd);
      assert enc == EncTest(k.rest.hd.t) && (|enc| > 1 ==> code[pc + 1] == enc[1]);
      if pos >= |E.s| { return Halt(MATCH_NOMATCH), k1, st1; }
      st1 := st.(pos := pos + 1);
      var op := code[pc];
      if op == OP_NOT {
        if SameByte(E, code[pc + 1], E.s[pos]) { return Halt(MATCH_NOMATCH), k1, st1; }
        t := Go(pc + 2, pos + 1, top, b);
      } else {
        if !TypeAccepts(E, TypeOfByte(op), E.s[pos]) { return Halt(MATCH_NOMATCH), k1, st1; }
        t := Go(pc + 1, pos + 1, top, b);
      }
      ItemTurn(pc, pos, top, b, k, st, base, 1);
    }
  
    // ----- repeats of one byte -----

    /** Reads a class, or a repeat of any kind of test: the test, its bounds and its size in bytes. */
    method Decode(pc: nat, ghost k: Todo) returns (t: Test, min: nat, max: nat, lazy: bool, size: nat)
      requires Placed(code, k) && k.rest.Then? && pc == Pc(code, k)
      requires k.rest.hd.Many? || (k.rest.hd.One? && k.rest.hd.t.Class?)
      ensures t.Valid() && t == k.rest.hd.t && size == |EncNode(k.rest.hd)|
      ensures k.rest.hd.One? ==> min == max == 1
      ensures k.rest.hd.Many? ==> min == k.rest.hd.min && max == if k.rest.hd.max < 0 then INT_MAX else k.rest.hd.max
      ensures k.rest.hd.Many? && min < max ==> lazy == k.rest.hd.lazy
    {
      ItemBytes(pc, k);
      if code[pc] == OP_CLASS || code[pc] == OP_NCLASS {
        t, min, max, lazy, size := DecodeClass(pc, k);
      } else {
        t, min, max, lazy, size := DecodeByte(pc, k);
      }
    }

    /** A repeat opcode of the family at `base`, and its count. */
    method DecodeByteRepeat(pc: nat, base: byte, ghost min0: nat, ghost max0: int, ghost lazy0: bool, ghost counted: bool)
      returns (min: nat, max: nat, lazy: bool, size: nat)
      requires base < 64 && ByteBounds(min0, max0)
      requires pc + |ByteRepeat(base, min0, max0, lazy0, counted)| <= |code|
      requires forall i {:trigger ByteRepeat(base, min0, max0, lazy0, counted)[i]} ::
                 0 <= i < |ByteRepeat(base, min0, max0, lazy0, counted)| ==> ByteRepeat(base, min0, max0, lazy0, counted)[i] == code[pc + i]
      ensures min == min0 && max == (if max0 < 0 then INT_MAX else max0) && size == |ByteRepeat(base, min0, max0, lazy0, counted)|
      ensures min < max ==> lazy == lazy0
    {
      ghost var enc := ByteRepeat(base, min0, max0, lazy0, counted);
      assert enc[0] == code[pc];
      var c: nat := code[pc] - base;
      lazy := c % 2 == 1;
      if c < 6 {
        min, max, size := REP_MIN[c], REP_MAX[c], 1;
        if max == 0 { max := INT_MAX; }
      } else {
        assert enc[1] == code[pc + 1] && enc[2] == code[pc + 2];
        max, size := Get(code, pc + 1), 3;
        min := if c < 8 then 0 else max;
      }
    }

    method DecodeByte(pc: nat, ghost k: Todo) returns (t: Test, min: nat, max: nat, lazy: bool, size: nat)
      requires Placed(code, k) && k.rest.Then? && pc == Pc(code, k)
      requires k.rest.hd.Many? && !k.rest.hd.t.Class?
      ensures t.Valid() && t == k.rest.hd.t && size == |EncNode(k.rest.hd)|
      ensures min == k.rest.hd.min && max == if k.rest.hd.max < 0 then INT_MAX else k.rest.hd.max
      ensures min < max ==> lazy == k.rest.hd.lazy
    {
      hide Text, EncCode, Placed, EncNode, ByteRepeat, RepeatBase, Operand;
      ItemBytes(pc, k);
      ghost var n, enc := k.rest.hd, EncNode(k.rest.hd);
      ByteParts(n);
      OperandIs(n.t);
      var base := if code[pc] < OP_NOTSTAR then OP_STAR else if code[pc] < OP_TYPESTAR then OP_NOTSTAR else OP_TYPESTAR;
      min, max, lazy, size := DecodeByteRepeat(pc, base, n.min, n.max, n.lazy, n.counted);
      var operand := code[pc + size];
      t := if base == OP_STAR then Char(operand)
           else if base == OP_NOTSTAR then NotChar(operand) else Type(TypeOfByte(operand));
      size := size + 1;
    }

    /** A repeat of a byte test: its opcode and count, then the operand. */
    static lemma ByteParts(n: Node)
      requires Program.ValidNode(n) && n.Many? && !n.t.Class?
      ensures RepeatBase(n.t) < 64 && ByteBounds(n.min, n.max)
      ensures var rep, enc := ByteRepeat(RepeatBase(n.t), n.min, n.max, n.lazy, n.counted), EncNode(n);
              && |enc| == |rep| + 1 && enc[|rep|] == Operand(n.t) && (forall i :: 0 <= i < |rep| ==> rep[i] == enc[i])
              && |rep| > 0 && RepeatBase(n.t) <= enc[0] <= RepeatBase(n.t) + 8
    {
      var rep := ByteRepeat(RepeatBase(n.t), n.min, n.max, n.lazy, n.counted);
      assert EncNode(n) == rep + [Operand(n.t)];
    }

    static lemma OperandIs(t: Test)
      requires t.Valid() && !t.Class?
      ensures RepeatBase(t) == if t.Char? then OP_STAR else if t.NotChar? then OP_NOTSTAR else OP_TYPESTAR
      ensures t == if t.Char? then Char(Operand(t)) else if t.NotChar? then NotChar(Operand(t)) else Type(TypeOfByte(Operand(t)))
    {
    }

    /** What stands after a class: nothing to repeat it, or the repeat of `n`. */
    method DecodeClassRepeat(at: nat, ghost min0: nat, ghost max0: int, ghost lazy0: bool, ghost once: bool)
      returns (min: nat, max: nat, lazy: bool, size: nat)
      requires at < |code|
      requires once ==> code[at] < OP_CRSTAR || OP_CRRANGE + 1 < code[at]
      requires !once ==> ValidMany(Class(false, seq(32, _ => 0)), min0, max0)
      requires !once ==> at + |ClassRepeat(min0, max0, lazy0)| <= |code|
      requires !once ==> forall i {:trigger ClassRepeat(min0, max0, lazy0)[i]} ::
                 0 <= i < |ClassRepeat(min0, max0, lazy0)| ==> ClassRepeat(min0, max0, lazy0)[i] == code[at + i]
      ensures once ==> min == max == 1 && size == 0
      ensures !once ==> min == min0 && max == (if max0 < 0 then INT_MAX else max0) && lazy == lazy0 && size == |ClassRepeat(min0, max0, lazy0)|
    {
      ghost var enc := if once then [] else ClassRepeat(min0, max0, lazy0);
      assert !once ==> code[at] == enc[0];
      assert !once && |enc| == 5 ==> code[at + 1] == enc[1] && code[at + 2] == enc[2] && code[at + 3] == enc[3] && code[at + 4] == enc[4];
      var op := code[at];
      lazy := (op - OP_CRSTAR) % 2 == 1;
      if OP_CRSTAR <= op < OP_CRRANGE {
        min, max, size := REP_MIN[op - OP_CRSTAR], REP_MAX[op - OP_CRSTAR], 1;
        if max == 0 { max := INT_MAX; }
      } else if op == OP_CRRANGE || op == OP_CRRANGE + 1 {
        min, max, size := Get(code, at + 1), Get(code, at + 3), 5;
        if max == 0 { max := INT_MAX; }
      } else {
        min, max, size := 1, 1, 0;
      }
    }

    method DecodeClass(pc: nat, ghost k: Todo) returns (t: Test, min: nat, max: nat, lazy: bool, size: nat)
      requires Placed(code, k) && k.rest.Then? && pc == Pc(code, k)
      requires (k.rest.hd.Many? || k.rest.hd.One?) && k.rest.hd.t.Class?
      ensures t.Valid() && t == k.rest.hd.t && size == |EncNode(k.rest.hd)|
      ensures k.rest.hd.One? ==> min == max == 1
      ensures k.rest.hd.Many? ==> min == k.rest.hd.min && max == if k.rest.hd.max < 0 then INT_MAX else k.rest.hd.max
      ensures k.rest.hd.Many? && min < max ==> lazy == k.rest.hd.lazy
    {
      hide Text, EncCode, ClassRepeat, Placed;
      ItemBytes(pc, k);
      ghost var n, enc := k.rest.hd, EncNode(k.rest.hd);
      if n.One? {
        StepOver(code, k);
        NotClassRepeat(code, Next(k));
      } else {
        assert enc == EncTest(n.t) + ClassRepeat(n.min, n.max, n.lazy);
        assert forall i :: 0 <= i < |ClassRepeat(n.min, n.max, n.lazy)| ==> ClassRepeat(n.min, n.max, n.lazy)[i] == enc[33 + i];
      }
      var bits := code[pc + 1..pc + 33];
      assert bits == n.t.bits by {
        assert forall i :: 0 <= i < 32 ==> n.t.bits[i] == EncTest(n.t)[i + 1] == enc[i + 1];
      }
      t := Class(code[pc] == OP_NCLASS, bits);
      min, max, lazy, size := DecodeClassRepeat(pc + 33, if n.One? then 0 else n.min, if n.One? then 0 else n.max,
                                                n.Many? && n.lazy, n.One?);
      size := size + 33;
    }
  
    /** Counts how many bytes from `pos`, at most `n`, pass the test. */
    method Scan(t: Test, pos: nat, n: nat) returns (r: nat)
      requires t.Valid() && pos <= |E.s|
      ensures r == Reach(E, t, pos, if n < |E.s| - pos then n else |E.s| - pos)
    {
      var i := 0;
      ghost var most := if n < |E.s| - pos then n else |E.s| - pos;
      while i < n && Hit(E, t, pos + i)
        invariant 0 <= i <= most
        invariant Reach(E, t, pos, most) == i + Reach(E, t, pos + i, most - i)
      {
        i := i + 1;
      }
      return i;
    }

    lemma AtFit(pc: nat, pos: nat, top: nat, b: Chain, k: Todo, st: St, base: seq<int>)
      requires At(pc, pos, top, b, k, st, base)
      ensures Placed(code, k) && pc == Pc(code, k) && pos == st.pos && Fit(E, k, st, b)
    {
    }

    /** A class, or any one-byte test with a repeat. */
    method Repeat(pc: nat, pos: nat, top: nat, b: Chain, ghost k: Todo, ghost st: St, ghost base: seq<int>)
      returns (t: Turn, ghost k1: Todo, ghost st1: St)
      requires Valid() && Within() && Flagged(st.caps) && At(pc, pos, top, b, k, st, base)
      requires k.rest.Then? && (k.rest.hd.Many? || (k.rest.hd.One? && k.rest.hd.t.Class?))
      modifies this`endMatch, this`endTop, this`captureLast, this`calls, this`overflow, ov
      ensures Turned(t, k1, st1, k, st, b, old(ov[..]), base) && Billed(t, k1, st1, k, st, b, old(calls), old(overflow))
      ensures calls >= old(calls) && Flagged(st.caps)
      decreases |E.s| - pos, Weight(k, pos), 0, 0
    {
      hide Run, RunEnd, RunUp, RunDown, Reach, Text, EncNode, Placed, Clean, Machine.Valid, Sorted, Covers, Sync;
      hide Weight, Flagged, Upto, Stands, Track, Spent, Left, Balance, Called, TrackUp, TrackDown, OffsetTop;
      hide Starts, Pairs;
      k1, st1 := Next(k), st;
      AtFit(pc, pos, top, b, k, st, base);
      var test, min, max, lazy, size := Decode(pc, k);
      var least := Scan(test, pos, min);
      ghost var whole := Reach(E, test, pos, Limit(E, max, pos));
      RepeatIs(k, st, b, min, max, lazy);
      RepeatTrack(k, st, b, min, max, lazy);
      Idle(Track(E, k, st, b));
      if least < min { return Halt(MATCH_NOMATCH), k1, st1; }
      if min == max {
        st1 := st.(pos := pos + min);
        FitNext(E, k, st, b, min);
        ItemTurn(pc, pos, top, b, k, st, base, min);
        return Go(pc + size, pos + min, top, b), k1, st1;
      }
      AtNext(pc, pos, top, b, k, st, base, 0);
      assert st.(pos := pos + 0) == st;
      var rc;
      if lazy {
        rc := RepeatLazy(test, pc + size, pos, min, max, top, b, k1, st, base);
      } else {
        var most := Scan(test, pos, max);
        rc := RepeatGreedy(pc + size, pos, min, most, top, b, k1, st, base);
      }
      t := Halt(rc);
    }

    /** The machine's view of a repeat, in terms of the decoded bounds. */
    lemma RepeatIs(k: Todo, st: St, b: Chain, min: nat, max: nat, lazy: bool)
      requires |E.s| <= INT_MAX && Fit(E, k, st, b) && k.rest.Then? && (k.rest.hd.Many? || k.rest.hd.One?)
      requires k.rest.hd.One? ==> min == max == 1
      requires k.rest.hd.Many? ==> min == k.rest.hd.min && max == if k.rest.hd.max < 0 then INT_MAX else k.rest.hd.max
      requires k.rest.hd.Many? && min < max ==> lazy == k.rest.hd.lazy
      ensures Program.ValidNode(k.rest.hd) && Fit(E, Next(k), st, b)
      ensures var test := k.rest.hd.t;
              var r := Reach(E, test, st.pos, Limit(E, max, st.pos));
              && Reach(E, test, st.pos, Limit(E, min, st.pos)) == (if r < min then r else min)
              && (r < min ==> Run(E, k, st, b) == None)
              && (r >= min && min == max ==> Run(E, k, st, b) == Run(E, Next(k), st.(pos := st.pos + min), b))
              && (r >= min && min < max ==>
                    Run(E, k, st, b) == if lazy then RunUp(E, Next(k), st, b, min, r) else RunDown(E, Next(k), st, b, min, r))
    {
      var n := k.rest.hd;
      hide RunEnd, Machine.Valid, Sorted, Covers, Weight, Run;
      FitNext(E, k, st, b, 0);
      assert st.(pos := st.pos + 0) == st;
      var test := n.t;
      var r := Reach(E, test, st.pos, Limit(E, max, st.pos));
      ReachLess(test, st.pos, Limit(E, min, st.pos), Limit(E, max, st.pos));
      if n.One? {
        RunItem(E, k, st, b);
      } else {
        RunMany(E, k, st, b);
        assert Limit(E, n.max, st.pos) == Limit(E, max, st.pos);
        if r >= min && min == max {
          RunUpStep(E, Next(k), st, b, min, r);
          RunDownStep(E, Next(k), st, b, min, r);
        }
      }
    }

    lemma ReachOne(t: Test, i: nat)
      requires t.Valid() && i <= |E.s|
      ensures Reach(E, t, i, Limit(E, 1, i)) == if Hit(E, t, i) then 1 else 0
    {
    }

    lemma LimitSame(max: int, decoded: nat, i: nat)
      requires |E.s| <= INT_MAX && i <= |E.s| && decoded == if max < 0 then INT_MAX else max
      ensures Limit(E, max, i) == Limit(E, decoded, i)
    {
    }

    /** ... and of what it costs. */
    lemma RepeatTrack(k: Todo, st: St, b: Chain, min: nat, max: nat, lazy: bool)
      requires |E.s| <= INT_MAX && Fit(E, k, st, b) && k.rest.Then? && (k.rest.hd.Many? || k.rest.hd.One?)
      requires k.rest.hd.One? ==> min == max == 1
      requires k.rest.hd.Many? ==> min == k.rest.hd.min && max == if k.rest.hd.max < 0 then INT_MAX else k.rest.hd.max
      requires k.rest.hd.Many? && min < max ==> lazy == k.rest.hd.lazy
      ensures Program.ValidNode(k.rest.hd) && Fit(E, Next(k), st, b)
      ensures var test := k.rest.hd.t;
              var r := Reach(E, test, st.pos, Limit(E, max, st.pos));
              && (r < min ==> Track(E, k, st, b) == NONE)
              && (r >= min && min == max ==> Track(E, k, st, b) == Track(E, Next(k), st.(pos := st.pos + min), b))
              && (r >= min && min < max ==>
                    Track(E, k, st, b) == if lazy then TrackUp(E, Next(k), st, b, min, r) else TrackDown(E, Next(k), st, b, min, r))
    {
      hide RunEnd, Machine.Valid, Sorted, Covers, Weight, Run, Track, TrackUp, TrackDown, Reach, Hit, Limit;
      var n := k.rest.hd;
      FitNext(E, k, st, b, 0);
      assert st.(pos := st.pos + 0) == st;
      if n.One? {
        TrackItem(E, k, st, b);
        ReachOne(n.t, st.pos);
      } else {
        TrackMany(E, k, st, b);
        LimitSame(n.max, max, st.pos);
      }
    }

    lemma {:induction false} ReachLess(t: Test, i: nat, n: nat, m: nat)
      requires t.Valid() && n <= m
      ensures Reach(E, t, i, n) == (if Reach(E, t, i, m) < n then Reach(E, t, i, m) else n)
      decreases n
    {
    }

    lemma AtOn(pc: nat, pos: nat, top: nat, b: Chain, k: Todo, st: St, base: seq<int>, n: nat)
      requires At(pc, pos, top, b, k, st, base) && pos + n <= |E.s|
      ensures At(pc, pos + n, top, b, k, st.(pos := pos + n), base)
    {
    }

    lemma {:induction false} HitAt(t: Test, i: nat, n: nat, d: nat)
      requires t.Valid() && i <= |E.s| && n <= |E.s| - i && d <= Reach(E, t, i, n)
      ensures d < n && Hit(E, t, i + d) <==> d < Reach(E, t, i, n)
    {
    }

    /** Tries what follows after every permitted number of bytes, fewest first. */
    method RepeatLazy(test: Test, pc: nat, pos: nat, min: nat, max: nat, top: nat, b: Chain,
                      ghost k: Todo, ghost st: St, ghost base: seq<int>) returns (rc: int)
      requires Valid() && Within() && Flagged(st.caps) && test.Valid() && At(pc, pos, top, b, k, st, base)
      requires min <= max && min <= Reach(E, test, pos, Limit(E, max, pos))
      modifies this`endMatch, this`endTop, this`captureLast, this`calls, this`overflow, ov
      ensures Done(rc, RunUp(E, k, st, b, min, Reach(E, test, pos, Limit(E, max, pos))), Open(k), old(ov[..]), base)
      ensures Spent(rc, old(calls), old(overflow), TrackUp(E, k, st, b, min, Reach(E, test, pos, Limit(E, max, pos))))
      ensures calls >= old(calls) && Flagged(st.caps)
      decreases |E.s| - pos, Weight(k, pos), 4, 0
    {
      hide Run, RunEnd, RunUp, Text, EncNode, Placed, Clean, Machine.Valid, Sorted, Covers, Sync, Weight, Reach;
      hide Flagged, Upto, Track, Spent, Left, Balance, Called, TrackUp, OffsetTop, Starts, Pairs;
      ghost var most := Reach(E, test, pos, Limit(E, max, pos));
      ghost var whole := TrackUp(E, k, st, b, min, most);
      Idle(whole);
      var i := min;
      while true
        invariant min <= i <= most
        invariant At(pc, pos, top, b, k, st, base) && Same(ov[..], old(ov[..]), Open(k), room)
        invariant RunUp(E, k, st, b, min, most) == RunUp(E, k, st, b, i, most)
        invariant Left(old(calls), old(overflow), whole, TrackUp(E, k, st, b, i, most))
        invariant calls >= old(calls) && Flagged(st.caps)
        decreases most - i
      {
        RunUpStep(E, k, st, b, i, most);
        TrackUpStep(E, k, st, b, i, most);
        LeftIs(old(calls), old(overflow), whole, TrackUp(E, k, st, b, i, most));
        AtOn(pc, pos, top, b, k, st, base, i);
        ghost var v, calls1, over1, here := ov[..], calls, overflow, st.(pos := pos + i);
        rc := Match(pos + i, pc, top, b, false, k, here, base);
        Onward(rc, old(calls), old(overflow), whole, calls1, over1, i == most || Run(E, k, here, b).Some?, Called(Track(E, k, here, b)),
               if i == most then NONE else TrackUp(E, k, st, b, i + 1, most));
        if rc != MATCH_NOMATCH { return; }
        AtAgain(v, pc, pos, top, b, k, st, base);
        HitAt(test, pos, Limit(E, max, pos), i);
        if i >= max || !Hit(E, test, pos + i) { return; }
        i := i + 1;
      }
    }

    /** Tries what follows after every permitted number of bytes, most first. */
    method RepeatGreedy(pc: nat, pos: nat, min: nat, most: nat, top: nat, b: Chain,
                        ghost k: Todo, ghost st: St, ghost base: seq<int>) returns (rc: int)
      requires Valid() && Within() && Flagged(st.caps) && At(pc, pos, top, b, k, st, base)
      requires min <= most && pos + most <= |E.s|
      modifies this`endMatch, this`endTop, this`captureLast, this`calls, this`overflow, ov
      ensures Done(rc, RunDown(E, k, st, b, min, most), Open(k), old(ov[..]), base)
      ensures Spent(rc, old(calls), old(overflow), TrackDown(E, k, st, b, min, most))
      ensures calls >= old(calls) && Flagged(st.caps)
      decreases |E.s| - pos, Weight(k, pos), 4, 0
    {
      hide Run, RunEnd, RunDown, Text, EncNode, Placed, Clean, Machine.Valid, Sorted, Covers, Sync, Weight;
      hide Flagged, Upto, Track, Spent, Left, Balance, Called, TrackDown;
      ghost var whole := TrackDown(E, k, st, b, min, most);
      Idle(whole);
      var i := most;
      while true
        invariant min <= i <= most
        invariant At(pc, pos, top, b, k, st, base) && Same(ov[..], old(ov[..]), Open(k), room)
        invariant RunDown(E, k, st, b, min, most) == RunDown(E, k, st, b, min, i)
        invariant Left(old(calls), old(overflow), whole, TrackDown(E, k, st, b, min, i))
        invariant calls >= old(calls) && Flagged(st.caps)
        decreases i
      {
        RunDownStep(E, k, st, b, min, i);
        TrackDownStep(E, k, st, b, min, i);
        LeftIs(old(calls), old(overflow), whole, TrackDown(E, k, st, b, min, i));
        AtOn(pc, pos, top, b, k, st, base, i);
        ghost var v, calls1, over1, here := ov[..], calls, overflow, st.(pos := pos + i);
        rc := Match(pos + i, pc, top, b, false, k, here, base);
        Onward(rc, old(calls), old(overflow), whole, calls1, over1, i == min || Run(E, k, here, b).Some?, Called(Track(E, k, here, b)),
               if i == min then NONE else TrackDown(E, k, st, b, min, i - 1));
        if rc != MATCH_NOMATCH { return; }
        AtAgain(v, pc, pos, top, b, k, st, base);
        if i == min { return; }
        i := i - 1;
      }
    }

    // ----- groups -----

    /** The number of a bracket, from its opcode or from the item after it. */
    method BracketNumber(pc: nat, ghost g: Node, ghost k: Todo) returns (number: nat)
      requires Valid() && g.Bra? && AltsAt(code, pc, BraByte(g.cap), g.alts, g, k)
      ensures number == g.cap
    {
      hide Text, EncChoice, EncCode, EncNode, Placed;
      AtHeader(code, pc, BraByte(g.cap), g.alts, g, 0, k);
      number := code[pc] - OP_BRA;
      if number > EXTRACT_BASIC_MAX {
        ghost var e := Enter(g.alts, g, 0, k);
        assert e.rest.hd == Number(g.cap);
        ItemBytes(pc + 3, e);
        NumberBytes(g.cap);
        ghost var enc := EncNode(Number(g.cap));
        assert enc[1] == code[pc + 4] && enc[2] == code[pc + 5];
        number := Get(code, pc + 4);
      }
    }

    /** The state inside group `g`, entered at `pos`, before what follows it. */
    ghost predicate Inside(v: seq<int>, pos: nat, top: nat, b: Chain, g: Node, k: Todo, st: St, base: seq<int>)
      reads this`startMatch
    {
      && pos == st.pos && Fit(E, k, st, b) && Clean(k, groups)
      && g.Bra? && Program.ValidNode(g) && Unnested(g) && NodeCaps(g) !! Open(k) && Upto(NodeCaps(g), groups)
      && Veto(k) == (if notempty then startMatch else -1)
      && Sync(v, base, Enter(g.alts, g, pos, k), st, room) && OffsetTop(top, st.caps, room)
    }

    lemma InsideAgain(v: seq<int>, pos: nat, top: nat, b: Chain, g: Node, k: Todo, st: St, base: seq<int>)
      requires Inside(v, pos, top, b, g, k, st, base) && Same(ov[..], v, Open(Enter(g.alts, g, pos, k)), room)
      ensures Inside(ov[..], pos, top, b, g, k, st, base)
    {
      SyncBack(v, ov[..], base, Enter(g.alts, g, pos, k), st, room);
    }

    lemma InsideAt(pc: int, pos: nat, top: nat, b: Chain, op: byte, a: Choice, g: Node, k: Todo, st: St, base: seq<int>)
      requires Valid() && Inside(ov[..], pos, top, b, g, k, st, base) && AltsAt(code, pc, op, a, g, k)
      requires g.Bra? && UnnestedChoice(a) && ChoiceCaps(a) <= ChoiceCaps(g.alts)
      ensures pc >= 0 && At(pc + 3, pos, top, Block(pos, b), Enter(a, g, pos, k), st, base)
      ensures Open(Enter(a, g, pos, k)) == Open(Enter(g.alts, g, pos, k))
    {
      AtHeader(code, pc, op, a, g, pos, k);
      RunChoiceStep(E, a, g, k, st, b);
      CleanEnter(a, g, pos, k, groups);
      SyncEnterSame(ov[..], base, a, g, k, st);
    }

    lemma SyncEnterSame(v: seq<int>, base: seq<int>, a: Choice, g: Node, k: Todo, st: St)
      requires g.Bra? && Sync(v, base, Enter(g.alts, g, st.pos, k), st, room)
      ensures Sync(v, base, Enter(a, g, st.pos, k), st, room)
    {
    }

    /** The loop over the alternatives of an opened group. */
    method Alternatives(pc0: nat, pos: nat, top: nat, b: Chain, capturing: bool, saveLast: int,
                        ghost g: Node, ghost k: Todo, ghost st: St, ghost base: seq<int>) returns (rc: int)
      requires Valid() && Within() && Flagged(st.caps) && Inside(ov[..], pos, top, b, g, k, st, base) && AltsAt(code, pc0, BraByte(g.cap), g.alts, g, k)
      modifies this`endMatch, this`endTop, this`captureLast, this`calls, this`overflow, ov
      ensures Done(rc, RunChoice(E, g.alts, g, k, st, b), Open(Enter(g.alts, g, pos, k)), old(ov[..]), base)
      ensures Spent(rc, old(calls), old(overflow), TrackChoice(E, g.alts, g, k, st, b))
      ensures calls >= old(calls) && Flagged(st.caps)
      decreases |E.s| - pos, ChoiceSize(g.alts) + 1 + Weight(k, pos), 4, 0
    {
      hide Run, RunEnd, RunChoice, Text, EncNode, EncChoice, Placed, Clean, Machine.Valid, Sorted, Covers, Sync;
      hide Weight, AltsAt, Flagged, Upto, Track, Spent, Left, Balance, Called, TrackChoice, OffsetTop, Starts;
      hide Pairs;
      var pc := pc0;
      ghost var op, a := BraByte(g.cap), g.alts;
      ghost var open := Open(Enter(g.alts, g, pos, k));
      ghost var whole := TrackChoice(E, g.alts, g, k, st, b);
      Idle(whole);
      while true
        invariant Inside(ov[..], pos, top, b, g, k, st, base) && AltsAt(code, pc, op, a, g, k)
        invariant ValidChoice(a) && UnnestedChoice(a) && ChoiceCaps(a) <= ChoiceCaps(g.alts) && ChoiceSize(a) <= ChoiceSize(g.alts)
        invariant RunChoice(E, g.alts, g, k, st, b) == RunChoice(E, a, g, k, st, b)
        invariant Left(old(calls), old(overflow), whole, TrackChoice(E, a, g, k, st, b))
        invariant Same(ov[..], old(ov[..]), open, room) && calls >= old(calls) && Flagged(st.caps)
        decreases |code| - pc
      {
        AtHeader(code, pc, op, a, g, pos, k);
        RunChoiceStep(E, a, g, k, st, b);
        TrackChoiceStep(E, a, g, k, st, b);
        LeftIs(old(calls), old(overflow), whole, TrackChoice(E, a, g, k, st, b));
        InsideAt(pc, pos, top, b, op, a, g, k, st, base);
        ghost var v, calls1, over1, e, b1 := ov[..], calls, overflow, Enter(a, g, pos, k), Block(pos, b);
        rc := Match(pos, pc + 3, top, b, true, e, st, base);
        Onward(rc, old(calls), old(overflow), whole, calls1, over1, a.Only? || Run(E, e, st, b1).Some?, Called(Track(E, e, st, b1)),
               if a.Only? then NONE else TrackChoice(E, a.more, g, k, st, b));
        if rc != MATCH_NOMATCH { return; }
        InsideAgain(v, pos, top, b, g, k, st, base);
        if capturing { captureLast := saveLast; }
        pc := pc + Get(code, pc + 1);
        if code[pc] != OP_ALT { return; }
        op, a := OP_ALT, a.more;
      }
    }

    /** The state inside the bracket, once the start of the group is noted. */
    lemma Opening(v: seq<int>, pc: nat, pos: nat, top: nat, b: Chain, k: Todo, st: St, base: seq<int>)
      requires Stands(v, pc, pos, top, b, k, st, base) && k.rest.Then? && k.rest.hd.Bra?
      requires ov[..] == var n := k.rest.hd.cap; if 0 < n < room then v[3 * room - n := pos] else v
      ensures var g, next := k.rest.hd, Next(k);
              Inside(ov[..], pos, top, b, g, next, st, base) && Open(next) == Open(k)
              && Open(Enter(g.alts, g, pos, next)) == Open(k) + if g.cap > 0 then {g.cap} else {}
    {
      hide Run, RunEnd, RunChoice, Text, EncNode, EncChoice, Placed, Machine.Valid, Sorted, Covers, Sync, Weight;
      hide Unnested, NodeCaps, Upto;
      RunBra(E, k, st, b);
      OpenKept(k);
      SyncOpen(v, base, k.rest.hd, k, st);
    }

    /** An opening bracket: save the capture's slots, try each alternative, restore them. */
    method Bracket(pc: nat, pos: nat, top: nat, b: Chain, ghost k: Todo, ghost st: St, ghost base: seq<int>) returns (rc: int)
      requires Valid() && Within() && Flagged(st.caps) && At(pc, pos, top, b, k, st, base)
      requires k.rest.Then? && k.rest.hd.Bra?
      modifies this`endMatch, this`endTop, this`captureLast, this`calls, this`overflow, ov
      ensures Done(rc, Run(E, k, st, b), Open(k), old(ov[..]), base)
      ensures Spent(rc, old(calls), old(overflow), Track(E, k, st, b))
      ensures calls >= old(calls) && Flagged(st.caps)
      decreases |E.s| - pos, Weight(k, pos), 0, 0
    {
      hide Run, RunEnd, RunChoice, Text, EncNode, EncChoice, Clean, Machine.Valid, Sorted, Covers, Sync, Weight;
      hide Unnested, NodeCaps, Flagged, Upto, Stands, Inside, Track, Spent, Left, Balance, Called, TrackChoice;
      hide Starts, Pairs;
      AtFit(pc, pos, top, b, k, st, base);
      ghost var g, next := k.rest.hd, Next(k);
      RunBra(E, k, st, b);
      TrackBra(E, k, st, b);
      StepOver(code, k);
      TextThen(k);
      AtBracket(code, g, next);
      var number := BracketNumber(pc, g, next);
      var capturing := 0 < number < room;
      var save1, save2, save3, saveLast := 0, 0, 0, captureLast;
      if capturing {
        save1, save2, save3 := ov[2 * number], ov[2 * number + 1], ov[3 * room - number];
        ov[3 * room - number] := pos;
      }
      Opening(old(ov[..]), pc, pos, top, b, k, st, base);
      ghost var v := ov[..];
      rc := Alternatives(pc, pos, top, b, capturing, saveLast, g, next, st, base);
      if rc != MATCH_NOMATCH { return; }
      if capturing {
        ov[2 * number], ov[2 * number + 1], ov[3 * room - number] := save1, save2, save3;
      }
    }

    lemma OpenKept(k: Todo)
      requires k.rest.Then? && Clean(k, groups)
      ensures Open(Next(k)) == Open(k) && Clean(Next(k), groups) && Unnested(k.rest.hd)
      ensures NodeCaps(k.rest.hd) !! Open(k) && Upto(NodeCaps(k.rest.hd), groups)
    {
    }

    lemma SyncOpen(v: seq<int>, base: seq<int>, g: Node, k: Todo, st: St)
      requires k.rest.Then? && g == k.rest.hd && g.Bra? && Clean(k, groups) && Sync(v, base, k, st, room)
      requires ov[..] == if 0 < g.cap < room then v[3 * room - g.cap := st.pos] else v
      ensures Sync(ov[..], base, Enter(g.alts, g, st.pos, Next(k)), st, room)
      ensures Open(Enter(g.alts, g, st.pos, Next(k))) == Open(k) + if g.cap > 0 then {g.cap} else {}
    {
      OpenKept(k);
      OpenPositive(k);
      assert g.cap > 0 ==> g.cap in NodeCaps(g);
      StartsKept(v, v, Next(k), room, -1);
      SyncEnter(v, ov[..], base, g.alts, g, Next(k), st, room);
    }

    /** The end of a capturing group: its pair is set, or that there is no room for it is noted. */
    method Record(number: nat, pos: nat, top: nat, ghost start: nat, ghost caps: map<nat, (nat, nat)>) returns (top1: nat)
      requires Valid() && Flagged(caps) && number <= groups
      modifies this`captureLast, this`overflow, ov
      ensures ov[..] == var v := old(ov[..]); if 0 < number < room then v[2 * number := v[3 * room - number]][2 * number + 1 := pos] else v
      ensures top1 == if 0 < number < room && top <= 2 * number then 2 * number + 2 else top
      ensures overflow <==> old(overflow) || (number > 0 && number >= room)
      ensures Flagged(caps) && (number > 0 ==> Flagged(caps[number := (start, pos)]))
    {
      top1 := top;
      if number > 0 {
        captureLast := number;
        if number >= room {
          overflow := true;
        } else {
          ov[2 * number], ov[2 * number + 1] := ov[3 * room - number], pos;
          if top <= 2 * number { top1 := 2 * number + 2; }
        }
      }
    }

    /** A ket: record the capture, then leave the group, or choose between leaving and another pass. */
    method KetItem(pc: nat, pos: nat, top: nat, b: Chain, ghost k: Todo, ghost st: St, ghost base: seq<int>)
      returns (t: Turn, ghost k1: Todo, ghost st1: St)
      requires Valid() && Within() && Flagged(st.caps) && At(pc, pos, top, b, k, st, base)
      requires k.In? && k.rest.Empty? && k.later.NoMore?
      modifies this`endMatch, this`endTop, this`captureLast, this`calls, this`overflow, ov
      ensures Turned(t, k1, st1, k, st, b, old(ov[..]), base) && Billed(t, k1, st1, k, st, b, old(calls), old(overflow))
      ensures calls >= old(calls) && Flagged(st.caps)
      decreases |E.s| - pos, Weight(k, pos), 0, 0
    {
      hide Run, RunEnd, RunChoice, Text, EncNode, EncChoice, Machine.Valid, Sorted, Covers, Sync, Weight, Unnested;
      hide NodeCaps, AltsAt, Flagged, Upto, Track, Spent, Left, Balance, Called, OffsetTop, Starts, Pairs;
      ghost var g, up := k.g, k.up;
      k1, st1 := up, Close(g.cap, k.start, st);
      AtKet(code, k);
      RunKet(E, k, st, b);
      TrackKet(E, k, st, b);
      var prev := pc - Get(code, pc + 1);
      var saved, b1, top1 := b.at, b.prev, top;
      var number := BracketNumber(prev, g, up);
      CleanCap(k, groups);
      top1 := Record(number, pos, top, k.start, st.caps);
      CloseKeeps(g.cap, k.start, st);
      ghost var after := if g.ket.Plain? || pos == saved then Track(E, up, st1, b1) else AfterPassTrack(k, st1, b1);
      ClosedOne(g.cap, old(overflow), after);
      CloseAt(old(ov[..]), pc, pos, top, top1, b, k, st, base);
      if code[pc] == OP_KET || pos == saved {
        return Go(pc + 3, pos, top1, b1), k1, st1;
      }
      ghost var calls1, over1 := calls, overflow;
      LeftIs(old(calls), old(overflow), Track(E, k, st, b), after);
      var rc := AfterPass(prev, pc, pos, top1, b1, k, st1, base);
      Onward(rc, old(calls), old(overflow), Track(E, k, st, b), calls1, over1, true, after, NONE);
      FlaggedLess(st.caps, st1.caps);
      return Halt(rc), k1, st1;
    }

    lemma ClosedOne(cap: nat, over0: bool, t: Trail)
      requires Within() && (overflow <==> over0 || (cap > 0 && cap >= room))
      ensures Left(calls, over0, Closing(cap, t), t)
    {
    }

    lemma CloseKeeps(cap: nat, start: nat, st: St)
      ensures st.caps.Keys <= Close(cap, start, st).caps.Keys
    {
    }

    /** A repeating ket after a pass that consumed: leave the group or go round, in the order of the ket. */
    method AfterPass(prev: nat, pc: nat, pos: nat, top: nat, b: Chain, ghost k: Todo, ghost st: St, ghost base: seq<int>)
      returns (rc: int)
      requires Valid() && Within() && Flagged(st.caps) && k.In? && k.g.Bra? && Clean(k, groups) && k.start < pos && pc < |code| && code[pc] == KetByte(k.g.ket)
      requires At(pc + 3, pos, top, b, k.up, st, base)
      requires AltsAt(code, prev, BraByte(k.g.cap), k.g.alts, k.g, k.up)
      requires Fit(E, Push(k.g, k.up), st, Block(pos, b))
      modifies this`endMatch, this`endTop, this`captureLast, this`calls, this`overflow, ov
      ensures Done(rc, AfterPassRun(k, st, b), Open(k.up), old(ov[..]), base)
      ensures Spent(rc, old(calls), old(overflow), AfterPassTrack(k, st, b))
      ensures calls >= old(calls) && Flagged(st.caps)
      decreases |E.s| - pos, NodeSize(k.g) + Weight(k.up, pos), 5, 0
    {
      hide Run, RunEnd, RunChoice, Text, EncNode, EncChoice, Machine.Valid, Sorted, Covers, Sync, Unnested;
      hide NodeCaps, AltsAt, Clean, Flagged, Upto, Track, Spent, Left, Balance, Called, Stands, Fit;
      hide AfterPassTrack, AfterPassRun, Pc, Placed;
      AtFit(pc + 3, pos, top, b, k.up, st, base);
      AtLoop(prev, pc + 3, pos, top, b, k, st, base);
      AfterPassIs(k, st, b);
      PushWeight(k.g, k.up, pos);
      if code[pc] == OP_KETRMIN {
        rc := TryBoth(pos, top, b, pc + 3, false, prev, true, k.up, Push(k.g, k.up), st, base);
      } else {
        rc := TryBoth(pos, top, b, prev, true, pc + 3, false, Push(k.g, k.up), k.up, st, base);
      }
    }

    /** One way on, and if that fails the other one, each in a call of its own. */
    method TryBoth(pos: nat, top: nat, b: Chain, pc1: nat, isGroup1: bool, pc2: nat, isGroup2: bool,
                   ghost k1: Todo, ghost k2: Todo, ghost st: St, ghost base: seq<int>)
      returns (rc: int)
      requires Valid() && Within() && Flagged(st.caps) && Open(k1) == Open(k2)
      requires At(pc1, pos, top, if isGroup1 then Block(pos, b) else b, k1, st, base)
      requires At(pc2, pos, top, if isGroup2 then Block(pos, b) else b, k2, st, base)
      modifies this`endMatch, this`endTop, this`captureLast, this`calls, this`overflow, ov
      ensures var b1, b2 := if isGroup1 then Block(pos, b) else b, if isGroup2 then Block(pos, b) else b;
              var first, second := Run(E, k1, st, b1), Run(E, k2, st, b2);
              && Done(rc, if first.Some? then first else second, Open(k1), old(ov[..]), base)
              && Spent(rc, old(calls), old(overflow), Either(first.Some?, Called(Track(E, k1, st, b1)), Called(Track(E, k2, st, b2))))
      ensures calls >= old(calls) && Flagged(st.caps)
      decreases |E.s| - pos, if Weight(k1, pos) > Weight(k2, pos) then Weight(k1, pos) else Weight(k2, pos), 4, 0
    {
      hide Run, Track, Placed, Pc, Fit, Clean, Sync, Weight, Flagged, Upto, Spent, Left, Balance, Called, Stands;
      hide OffsetTop, Pairs;
      ghost var b1, b2 := if isGroup1 then Block(pos, b) else b, if isGroup2 then Block(pos, b) else b;
      AtFit(pc1, pos, top, b1, k1, st, base);
      AtFit(pc2, pos, top, b2, k2, st, base);
      ghost var v, calls0, over0, found := ov[..], calls, overflow, Run(E, k1, st, b1).Some?;
      ghost var t1, t2 := Called(Track(E, k1, st, b1)), Called(Track(E, k2, st, b2));
      ghost var whole := Either(found, t1, t2);
      Idle(whole);
      rc := Match(pos, pc1, top, b, isGroup1, k1, st, base);
      Onward(rc, calls0, over0, whole, calls0, over0, found, t1, t2);
      if rc != MATCH_NOMATCH { return; }
      LeftIs(calls0, over0, whole, t2);
      ghost var calls1, over1 := calls, overflow;
      AtAgain(v, pc2, pos, top, b2, k2, st, base);
      rc := Match(pos, pc2, top, b, isGroup2, k2, st, base);
      Onward(rc, calls0, over0, whole, calls1, over1, true, t2, NONE);
    }

    /** The machine's choice at a repeating ket. */
    ghost function AfterPassRun(k: Todo, st: St, b: Chain): Option<St>
      requires k.In? && k.g.Bra? && Fit(E, k.up, st, b) && Fit(E, Push(k.g, k.up), st, Block(st.pos, b))
    {
      var left, round := Run(E, k.up, st, b), Run(E, Push(k.g, k.up), st, Block(st.pos, b));
      if k.g.ket.Min? then (if left.Some? then left else round) else (if round.Some? then round else left)
    }

    ghost function AfterPassTrack(k: Todo, st: St, b: Chain): Trail
      requires k.In? && k.g.Bra? && Fit(E, k.up, st, b) && Fit(E, Push(k.g, k.up), st, Block(st.pos, b))
    {
      var again, b1 := Push(k.g, k.up), Block(st.pos, b);
      var left, round := Called(Track(E, k.up, st, b)), Called(Track(E, again, st, b1));
      if k.g.ket.Min? then Either(Run(E, k.up, st, b).Some?, left, round) else Either(Run(E, again, st, b1).Some?, round, left)
    }

    lemma AfterPassIs(k: Todo, st: St, b: Chain)
      requires k.In? && k.g.Bra? && Fit(E, k.up, st, b) && Fit(E, Push(k.g, k.up), st, Block(st.pos, b))
      ensures var again, b1 := Push(k.g, k.up), Block(st.pos, b);
              var leave, go := Run(E, k.up, st, b), Run(E, again, st, b1);
              var left, round := Called(Track(E, k.up, st, b)), Called(Track(E, again, st, b1));
              && AfterPassTrack(k, st, b) == (if k.g.ket.Min? then Either(leave.Some?, left, round) else Either(go.Some?, round, left))
              && AfterPassRun(k, st, b) == if k.g.ket.Min? then (if leave.Some? then leave else go) else (if go.Some? then go else leave)
    {
      hide Run, Track;
    }

    /** What recording the capture achieves. */
    lemma CloseAt(v: seq<int>, pc: nat, pos: nat, top: nat, top1: nat, b: Chain, k: Todo, st: St, base: seq<int>)
      requires Valid() && Stands(v, pc, pos, top, b, k, st, base)
      requires k.In? && k.rest.Empty? && k.later.NoMore?
      requires ov[..] == var n := k.g.cap; if 0 < n < room then v[2 * n := v[3 * room - n]][2 * n + 1 := pos] else v
      requires top1 == if 0 < k.g.cap < room && top <= 2 * k.g.cap then 2 * k.g.cap + 2 else top
      ensures b.Block? && At(pc + 3, pos, top1, b.prev, k.up, Close(k.g.cap, k.start, st), base)
      ensures Open(k.up) <= Open(k) && Same(ov[..], v, Open(k), room)
    {
      hide Run, RunEnd, RunChoice, Text, EncNode, EncChoice, Machine.Valid, Sorted, Weight, Sync, AltsAt;
      AtKet(code, k);
      RunKet(E, k, st, b);
      OpenPositive(k.up);
      assert k.g.cap > 0 ==> k.g.cap in NodeCaps(k.g);
      SyncClose(v, ov[..], base, k, st, room);
      TopClose(top, k.g.cap, k.start, st, room);
    }

    /** Back at the bracket for another pass. */
    lemma AtLoop(prev: nat, pc: nat, pos: nat, top: nat, b: Chain, k: Todo, st: St, base: seq<int>)
      requires Valid() && k.In? && Clean(k, groups)
      requires At(pc, pos, top, b, k.up, st, base)
      requires AltsAt(code, prev, BraByte(k.g.cap), k.g.alts, k.g, k.up)
      ensures At(prev, pos, top, Block(pos, b), Push(k.g, k.up), st, base)
    {
      PlacePush(code, k.g, k.up);
      AtBracket(code, k.g, k.up);
      CleanPush(k.g, k.up, groups);
      CoversPush(b, k.up, pos);
      StartsKept(ov[..], ov[..], Push(k.g, k.up), room, -1);
    }

    /** BRAZERO or BRAMINZERO: a group that may be skipped. */
    method ZeroItem(pc: nat, pos: nat, top: nat, b: Chain, ghost k: Todo, ghost st: St, ghost base: seq<int>)
      returns (t: Turn, ghost k1: Todo, ghost st1: St)
      requires Valid() && Within() && Flagged(st.caps) && At(pc, pos, top, b, k, st, base)
      requires k.rest.Then? && k.rest.hd.Zero?
      modifies this`endMatch, this`endTop, this`captureLast, this`calls, this`overflow, ov
      ensures Turned(t, k1, st1, k, st, b, old(ov[..]), base) && Billed(t, k1, st1, k, st, b, old(calls), old(overflow))
      ensures calls >= old(calls) && Flagged(st.caps)
      decreases |E.s| - pos, Weight(k, pos), 0, 0
    {
      hide Spent, Left, Balance, Called, Track, Run, Clean, Sync, Flagged, Upto, Machine.Valid, Sorted, Covers;
      hide Weight, EncNode, Text, Placed, AltsAt, Stands, OffsetTop;
      AtFit(pc, pos, top, b, k, st, base);
      st1 := st;
      ghost var g, next := k.rest.hd.g, Next(k);
      RunZero(E, k, st, b);
      TrackZero(E, k, st, b);
      ghost var whole, calls1, over1, b1 := Track(E, k, st, b), calls, overflow, Block(pos, b);
      Idle(whole);
      ZeroAt(pc, pos, top, b, k, st, base);
      ghost var v := ov[..];
      var rc;
      if code[pc] == OP_BRAZERO {
        k1 := next;
        rc := Match(pos, pc + 1, top, b, true, Push(g, next), st, base);
        Onward(rc, calls1, over1, whole, calls1, over1, Run(E, Push(g, next), st, b1).Some?, Called(Track(E, Push(g, next), st, b1)), Track(E, next, st, b));
        if rc != MATCH_NOMATCH { return Halt(rc), k1, st1; }
        var ket := SkipGroup(code, pc + 1, BraByte(g.cap), g.alts, g, next);
        AtAgain(v, ket + 3, pos, top, b, next, st, base);
        t := Go(ket + 3, pos, top, b);
      } else {
        k1 := Push(g, next);
        var ket := SkipGroup(code, pc + 1, BraByte(g.cap), g.alts, g, next);
        rc := Match(pos, ket + 3, top, b, true, next, st, base);
        Onward(rc, calls1, over1, whole, calls1, over1, Run(E, next, st, b1).Some?, Called(Track(E, next, st, b1)), Track(E, Push(g, next), st, b));
        if rc != MATCH_NOMATCH { return Halt(rc), k1, st1; }
        AtAgain(v, pc + 1, pos, top, b, Push(g, next), st, base);
        t := Go(pc + 1, pos, top, b);
      }
    }

    /** Both ways on from BRAZERO, with and without an extra block. */
    lemma ZeroAt(pc: nat, pos: nat, top: nat, b: Chain, k: Todo, st: St, base: seq<int>)
      requires Valid() && At(pc, pos, top, b, k, st, base) && k.rest.Then? && k.rest.hd.Zero?
      ensures var g, next := k.rest.hd.g, Next(k);
              && g.Bra? && pc + 1 < |code| && code[pc] == OP_BRAZERO + LazyBit(k.rest.hd.lazy)
              && AltsAt(code, pc + 1, BraByte(g.cap), g.alts, g, next)
              && At(pc + 1, pos, top, b, Push(g, next), st, base)
              && At(pc + 1, pos, top, Block(pos, b), Push(g, next), st, base)
              && Pc(code, next) >= 0 && At(Pc(code, next), pos, top, b, next, st, base)
              && At(Pc(code, next), pos, top, Block(pos, b), next, st, base)
              && Open(next) == Open(k) && Open(Push(g, next)) == Open(k)
    {
      hide Run, RunEnd, RunChoice, Machine.Valid, Sorted, Covers, Weight, EncNode, Text, Placed, AltsAt, Pc, Fit;
      hide Clean, Sync, Starts, OffsetTop, Stands;
      var g, next := k.rest.hd.g, Next(k);
      ZeroPlaced(pc, pos, top, b, k, st, base);
      AtMoved(pc, pos, top, b, k, st, base, pc + 1, b, Push(g, next));
      AtMoved(pc, pos, top, b, k, st, base, pc + 1, Block(pos, b), Push(g, next));
      AtMoved(pc, pos, top, b, k, st, base, Pc(code, next), b, next);
      AtMoved(pc, pos, top, b, k, st, base, Pc(code, next), Block(pos, b), next);
    }

    /** Code, chain and open groups at both places. */
    lemma ZeroPlaced(pc: nat, pos: nat, top: nat, b: Chain, k: Todo, st: St, base: seq<int>)
      requires Valid() && At(pc, pos, top, b, k, st, base) && k.rest.Then? && k.rest.hd.Zero?
      ensures var g, next := k.rest.hd.g, Next(k);
              && g.Bra? && pc + 1 < |code| && code[pc] == OP_BRAZERO + LazyBit(k.rest.hd.lazy)
              && AltsAt(code, pc + 1, BraByte(g.cap), g.alts, g, next)
              && Stays(pc + 1, pos, b, k, st, Push(g, next)) && Stays(pc + 1, pos, Block(pos, b), k, st, Push(g, next))
              && Machine.Valid(next) && Pc(code, next) >= 0
              && Stays(Pc(code, next), pos, b, k, st, next) && Stays(Pc(code, next), pos, Block(pos, b), k, st, next)
    {
      hide Run, RunEnd, RunChoice, Machine.Valid, Sorted, Covers, Weight, EncNode, Text, Placed, AltsAt, Sync;
      hide OffsetTop;
      var node, g, next := k.rest.hd, k.rest.hd.g, Next(k);
      RunZero(E, k, st, b);
      AtZero(code, k);
      OpenKept(k);
      assert Unnested(node) && NodeCaps(node) == NodeCaps(g);
      CleanPush(g, next, groups);
    }

    /** `k2`, a piece of code away, has the open groups of `k`. */
    ghost predicate Stays(pc: int, pos: nat, b: Chain, k: Todo, st: St, k2: Todo) {
      && Placed(code, k2) && pc == Pc(code, k2) && Fit(E, k2, st, b) && Clean(k2, groups)
      && Open(k2) == Open(k) && k2 == k.(rest := k2.rest)
    }

    lemma AtMoved(pc: nat, pos: nat, top: nat, b: Chain, k: Todo, st: St, base: seq<int>, pc2: nat, b2: Chain, k2: Todo)
      requires At(pc, pos, top, b, k, st, base) && Stays(pc2, pos, b2, k, st, k2)
      ensures At(pc2, pos, top, b2, k2, st, base)
    {
      hide Placed, Pc, Fit, Clean, OffsetTop;
      StartsKept(ov[..], ov[..], k2, room, -1);
    }

    // ----- the matcher -----

    /** The end of the pattern. */
    method EndItem(pos: nat, top: nat, b: Chain, ghost pc: nat, ghost k: Todo, ghost st: St, ghost base: seq<int>) returns (rc: int)
      requires Valid() && Within() && Flagged(st.caps) && At(pc, pos, top, b, k, st, base) && k.Top? && k.rest.Empty?
      modifies this`endMatch, this`endTop
      ensures Spent(rc, calls, overflow, Track(E, k, st, b))
      ensures Done(rc, Run(E, k, st, b), Open(k), ov[..], base)
    {
      Idle(NONE);
      hide Spent, Left, Balance;
      if notempty && pos == startMatch { return MATCH_NOMATCH; }
      endMatch, endTop := pos, top;
      return MATCH_MATCH;
    }

    /**
     * Matches what remains at `pc` from `pos`. `isGroup` pushes the position on the chain of
     * saved positions first. The result is that of the machine, and nothing but the call limit
     * can stop it: every call is on a smaller state.
     */
    method Match(pos0: nat, pc0: nat, top0: nat, eptrb: Chain, isGroup: bool, ghost k0: Todo, ghost st0: St, ghost base: seq<int>)
      returns (rc: int)
      requires Valid() && Within() && Flagged(st0.caps) && At(pc0, pos0, top0, if isGroup then Block(pos0, eptrb) else eptrb, k0, st0, base)
      modifies this`endMatch, this`endTop, this`captureLast, this`calls, this`overflow, ov
      ensures Done(rc, Run(E, k0, st0, if isGroup then Block(pos0, eptrb) else eptrb), Open(k0), old(ov[..]), base)
      ensures Spent(rc, old(calls), old(overflow), Called(Track(E, k0, st0, if isGroup then Block(pos0, eptrb) else eptrb)))
      ensures calls >= old(calls) && Flagged(st0.caps)
      decreases |E.s| - pos0, Weight(k0, pos0), 3, 0
    {
      hide Run, RunEnd, Text, EncCode, Placed, Clean, Machine.Valid, Sorted, Covers, Sync, Weight, Flagged, Upto;
      hide Track, Spent, Left, Balance, Called;
      calls := calls + 1;
      ghost var whole := Called(Track(E, k0, st0, if isGroup then Block(pos0, eptrb) else eptrb));
      if limit.Some? && calls > limit.value {
        TooMany(old(calls), overflow, Track(E, k0, st0, if isGroup then Block(pos0, eptrb) else eptrb));
        return ERROR_MATCHLIMIT;
      }
      Entered(old(calls), Track(E, k0, st0, if isGroup then Block(pos0, eptrb) else eptrb));
      var pc, pos, top := pc0, pos0, top0;
      var b := if isGroup then Block(pos0, eptrb) else eptrb;
      ghost var b0 := b;
      ghost var k, st := k0, st0;
      while true
        invariant At(pc, pos, top, b, k, st, base)
        invariant Run(E, k, st, b) == Run(E, k0, st0, b0)
        invariant pos0 < pos || (pos0 == pos && Weight(k, pos) <= Weight(k0, pos0))
        invariant Open(k) <= Open(k0) && Same(ov[..], old(ov[..]), Open(k0), room)
        invariant Left(old(calls), old(overflow), whole, Track(E, k, st, b))
        invariant calls >= old(calls) && Flagged(st.caps) && st0.caps.Keys <= st.caps.Keys
        decreases |E.s| - pos, Weight(k, pos)
      {
        var t: Turn;
        ghost var here, calls1, over1, rest := st, calls, overflow, Track(E, k, st, b);
        LeftIs(old(calls), old(overflow), whole, rest);
        t, k, st := Item(pc, pos, top, b, k, st, base);
        FlaggedLess(st0.caps, here.caps);
        match t
        case Halt(r) =>
          Onward(r, old(calls), old(overflow), whole, calls1, over1, true, rest, NONE);
          return r;
        case Go(pc1, pos1, top1, b1) =>
          LeftOn(old(calls), old(overflow), whole, calls1, over1, rest, Track(E, k, st, b1));
          pc, pos, top, b := pc1, pos1, top1, b1;
      }
    }

    /** One turn of the loop: dispatch on the opcode. */
    method Item(pc: nat, pos: nat, top: nat, b: Chain, ghost k: Todo, ghost st: St, ghost base: seq<int>)
      returns (t: Turn, ghost k1: Todo, ghost st1: St)
      requires Valid() && Within() && Flagged(st.caps) && At(pc, pos, top, b, k, st, base)
      modifies this`endMatch, this`endTop, this`captureLast, this`calls, this`overflow, ov
      ensures Turned(t, k1, st1, k, st, b, old(ov[..]), base) && Billed(t, k1, st1, k, st, b, old(calls), old(overflow))
      ensures calls >= old(calls) && Flagged(st.caps)
      decreases |E.s| - pos, Weight(k, pos), 2, 0
    {
      hide Run, RunEnd, Text, EncCode, EncNode, Placed, Clean, Machine.Valid, Sorted, Covers, Sync, Weight;
      hide Flagged, Upto, Track, Spent, Left, Balance, Called;
      k1, st1 := k, st;
      AtByte(code, k);
      if k.rest.Then? { FitNext(E, k, st, b, 0); FirstByte(k.rest.hd); }
      var op := code[pc];
      if op >= OP_BRA {
        var rc := Bracket(pc, pos, top, b, k, st, base);
        t := Halt(rc);
      } else if op == OP_BRAZERO || op == OP_BRAZERO + 1 {
        t, k1, st1 := ZeroItem(pc, pos, top, b, k, st, base);
      } else if op == OP_END {
        var rc := EndItem(pos, top, b, pc, k, st, base);
        t := Halt(rc);
      } else if op == OP_ALT {
        t, k1, st1 := AltItem(pc, pos, top, b, k, st, base);
      } else if OP_KET <= op <= OP_KETRMIN {
        t, k1, st1 := KetItem(pc, pos, top, b, k, st, base);
      } else if op == OP_CIRC || op == OP_DOLL || op == OP_BRANUMBER {
        t, k1 := Assertion(pc, pos, top, b, k, st, base);
      } else if op == OP_CHARS {
        t, k1, st1 := Chars(pc, pos, top, b, k, st, base);
      } else if op <= OP_ANY || op == OP_NOT {
        t, k1, st1 := OneByte(pc, pos, top, b, k, st, base);
      } else {
        t, k1, st1 := Repeat(pc, pos, top, b, k, st, base);
      }
    }

    /** OP_ALT ends a branch: go on from the ket of the group. */
    method AltItem(pc: nat, pos: nat, top: nat, b: Chain, ghost k: Todo, ghost st: St, ghost base: seq<int>)
      returns (t: Turn, ghost k1: Todo, ghost st1: St)
      requires Valid() && Within() && Flagged(st.caps) && At(pc, pos, top, b, k, st, base)
      requires k.In? && k.rest.Empty? && k.later.More?
      modifies this`endMatch, this`endTop, this`captureLast, this`calls, this`overflow, ov
      ensures Turned(t, k1, st1, k, st, b, old(ov[..]), base) && Billed(t, k1, st1, k, st, b, old(calls), old(overflow))
      ensures calls >= old(calls) && Flagged(st.caps)
      decreases |E.s| - pos, Weight(k, pos), 1, 0
    {
      hide Run, RunEnd, Text, EncCode, EncNode, EncChoice, Placed, AltsAt, Machine.Valid, Sorted, Covers, Weight;
      hide Flagged, Upto, Track, Spent, Left, Balance, Called;
      AtAlt(code, k);
      var ket := SkipGroup(code, pc, OP_ALT, k.later.alts, k.g, k.up);
      ghost var kk := k.(later := NoMore);
      LaterSkipped(E, k, st, b);
      TrackLaterSkipped(E, k, st, b);
      StartsKept(ov[..], ov[..], kk, room, -1);
      t, k1, st1 := KetItem(ket, pos, top, b, kk, st, base);
    }
  }
}
