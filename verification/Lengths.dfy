/**
 * The first pass of pcre_compile as it runs: one loop over the items of the pattern, with the
 * lengths at which brackets were opened on a stack of fixed size.
 */
module Lengths {
  import opened Wrappers
  import opened Opcodes
  import opened Regex
  import opened FirstPass
  import opened Numbering

  const BRASTACK_SIZE := 200
  const ERR19 := 19    // parentheses nested too deeply

  /** A piece that is not a group, an opening bracket, `|`, and a closing bracket with its quantifier. */
  datatype Token = Item(p: Piece) | Open(capturing: bool) | Bar | Close(q: Quant)

  function PieceTokens(p: Piece): seq<Token>
    decreases p
  {
    if p.a.Group? then [Open(p.a.cap > 0)] + (AltsTokens(p.a.alts) + [Close(p.q)]) else [Item(p)]
  }

  function BranchTokens(b: Branch): seq<Token>
    decreases b
  {
    if b.Nil? then [] else PieceTokens(b.hd) + BranchTokens(b.tl)
  }

  function AltsTokens(alts: Alts): seq<Token>
    decreases alts
  {
    BranchTokens(alts.b) + if alts.Alt? then [Bar] + AltsTokens(alts.more) else []
  }

  /** How deeply brackets are nested. */
  function PieceDepth(p: Piece): nat
    decreases p
  {
    if p.a.Group? then 1 + AltsDepth(p.a.alts) else 0
  }

  function BranchDepth(b: Branch): nat
    decreases b
  {
    if b.Nil? then 0 else if PieceDepth(b.hd) > BranchDepth(b.tl) then PieceDepth(b.hd) else BranchDepth(b.tl)
  }

  function AltsDepth(alts: Alts): nat
    decreases alts
  {
    if alts.Alt? && AltsDepth(alts.more) > BranchDepth(alts.b) then AltsDepth(alts.more) else BranchDepth(alts.b)
  }

  /** `n` groups stand one inside the other. */
  predicate NestedBranch(b: Branch, n: nat)
    decreases b
  {
    n == 0 || (b.Cons? && ((b.hd.a.Group? && NestedAlts(b.hd.a.alts, n - 1)) || NestedBranch(b.tl, n)))
  }

  predicate NestedAlts(alts: Alts, n: nat)
    decreases alts
  {
    NestedBranch(alts.b, n) || (alts.Alt? && NestedAlts(alts.more, n))
  }

  lemma {:induction false} BranchNesting(b: Branch, n: nat)
    ensures NestedBranch(b, n) <==> n <= BranchDepth(b)
    decreases b
  {
    if b.Cons? && n > 0 {
      BranchNesting(b.tl, n);
      if b.hd.a.Group? { DepthIs(b.hd.a.alts, n - 1); }
    }
  }

  /** The depth is the largest number of groups that stand one inside the other. */
  lemma {:induction false} DepthIs(alts: Alts, n: nat)
    ensures NestedAlts(alts, n) <==> n <= AltsDepth(alts)
    decreases alts
  {
    BranchNesting(alts.b, n);
    if alts.Alt? { DepthIs(alts.more, n); }
  }

  /** Length and number of capturing brackets at the end of `toks`; None when the stack overflows. */
  function Go(toks: seq<Token>, stack: seq<int>, length: int, count: nat): Option<(int, nat)>
    decreases |toks|
  {
    if toks == [] then Some((length, count)) else
    var rest := toks[1..];
    match toks[0]
    case Item(p) => Go(rest, stack, length + PieceLength(p), count)
    case Bar => Go(rest, stack, length + 3, count)
    case Open(capturing) =>
      var n := if capturing then count + 1 else count;
      if |stack| >= BRASTACK_SIZE then None
      else Go(rest, stack + [length], length + OpenLength(capturing, n), n)
    case Close(q) =>
      if stack == [] then Go(rest, stack, length + 3 + CloseExtra(0, q), count)
      else
        var top := |stack| - 1;
        Go(rest, stack[..top], length + 3 + CloseExtra(length + 3 - stack[top], q), count)
  }

  function OpenLength(capturing: bool, n: nat): nat {
    if capturing && n > EXTRACT_BASIC_MAX then 6 else 3
  }

  /** What a quantifier adds after a bracket of `dup` bytes. */
  function CloseExtra(dup: int, q: Quant): int {
    var min, max := if q.Once? then 1 else q.min, if q.Once? then 1 else q.max;
    if min == 0 then 1 + if max > 0 then (max - 1) * (dup + 7) else 0
    else (min - 1) * dup + if max > min then (max - min) * (dup + 7) - 6 else 0
  }

  lemma CloseIsGroup(dup: nat, q: Quant)
    ensures dup + CloseExtra(dup, q) == GroupQuantLength(dup, q)
  {
  }

  // ----- the loop computes what the structure of the pattern says -----

  function PopExtra(stack: seq<int>, length: int, q: Quant): int {
    CloseExtra(if stack == [] then 0 else length + 3 - stack[|stack| - 1], q)
  }

  lemma GoStep(t: Token, rest: seq<Token>, stack: seq<int>, length: int, count: nat)
    ensures Go([t] + rest, stack, length, count) ==
            match t
            case Item(p) => Go(rest, stack, length + PieceLength(p), count)
            case Bar => Go(rest, stack, length + 3, count)
            case Open(capturing) =>
              var n := if capturing then count + 1 else count;
              if |stack| >= BRASTACK_SIZE then None else Go(rest, stack + [length], length + OpenLength(capturing, n), n)
            case Close(q) =>
              Go(rest, if stack == [] then stack else stack[..|stack| - 1], length + 3 + PopExtra(stack, length, q), count)
  {
  }

  /** Closing a bracket that was opened at `base`. */
  lemma GoClose(q: Quant, rest: seq<Token>, stack: seq<int>, base: int, length: int, count: nat)
    ensures Go([Close(q)] + rest, stack + [base], length, count) ==
            Go(rest, stack, length + 3 + CloseExtra(length + 3 - base, q), count)
  {
  }

  lemma {:induction false} GoPiece(p: Piece, rest: seq<Token>, stack: seq<int>, length: int, count: nat)
    requires ValidAtom(p.a) && NumberedPiece(p, count) && |stack| + PieceDepth(p) <= BRASTACK_SIZE
    ensures Go(PieceTokens(p) + rest, stack, length, count) == Go(rest, stack, length + PieceLength(p), count + PieceCount(p))
    decreases p
  {
    hide Go, CloseExtra, GroupQuantLength, PieceLength, AltsLength, AltsCount;
    if p.a.Group? {
      var cap, alts, body := p.a.cap, p.a.alts, AltsTokens(p.a.alts);
      var n := if cap > 0 then count + 1 else count;
      var open, close := Open(cap > 0), Close(p.q);
      Flatten(open, body, close, rest);
      GoStep(open, body + ([close] + rest), stack, length, count);
      var head := OpenLength(cap > 0, n);
      GoAlts(alts, [close] + rest, stack + [length], length + head, n);
      GoClose(p.q, rest, stack, length, length + head + AltsLength(alts), n + AltsCount(alts));
      GroupRoomLength(alts);
      var dup := head + AltsLength(alts) + 3;
      CloseIsGroup(dup, p.q);
      GroupPieceLength(p);
    } else {
      GoStep(Item(p), rest, stack, length, count);
    }
  }

  lemma Flatten(open: Token, body: seq<Token>, close: Token, rest: seq<Token>)
    ensures [open] + (body + [close]) + rest == [open] + (body + ([close] + rest))
  {
  }

  lemma GroupPieceLength(p: Piece)
    requires p.a.Group? && AltsLength(p.a.alts) >= 0
    ensures PieceLength(p) == GroupQuantLength(3 + (if p.a.cap > EXTRACT_BASIC_MAX then 3 else 0) + AltsLength(p.a.alts) + 3, p.q)
  {
  }

  lemma GroupRoomLength(alts: Alts)
    requires ValidAlts(alts)
    ensures AltsLength(alts) >= 0
  {
    AltsRoom(alts);
  }

  lemma {:induction false} GoBranch(b: Branch, rest: seq<Token>, stack: seq<int>, length: int, count: nat)
    requires ValidBranch(b) && NumberedBranch(b, count) && |stack| + BranchDepth(b) <= BRASTACK_SIZE
    ensures Go(BranchTokens(b) + rest, stack, length, count) == Go(rest, stack, length + BranchLength(b), count + BranchCount(b))
    decreases b
  {
    hide Go, PieceTokens, PieceLength, PieceCount;
    if b.Nil? {
      assert BranchTokens(b) + rest == rest;
    } else {
      assert BranchTokens(b) + rest == PieceTokens(b.hd) + (BranchTokens(b.tl) + rest);
      GoPiece(b.hd, BranchTokens(b.tl) + rest, stack, length, count);
      GoBranch(b.tl, rest, stack, length + PieceLength(b.hd), count + PieceCount(b.hd));
    }
  }

  lemma {:induction false} GoAlts(alts: Alts, rest: seq<Token>, stack: seq<int>, length: int, count: nat)
    requires ValidAlts(alts) && NumberedAlts(alts, count) && |stack| + AltsDepth(alts) <= BRASTACK_SIZE
    ensures Go(AltsTokens(alts) + rest, stack, length, count) == Go(rest, stack, length + AltsLength(alts), count + AltsCount(alts))
    decreases alts
  {
    hide Go, AltsTokens, BranchTokens, AltsLength, BranchLength, AltsCount, BranchCount, AltsDepth, BranchDepth;
    hide ValidAlts, ValidBranch, NumberedAlts, NumberedBranch;
    var b := alts.b;
    AltsStep(alts, count);
    AltsParts(alts, rest);
    if alts.Alt? {
      var more := AltsTokens(alts.more) + rest;
      GoBranch(b, [Bar] + more, stack, length, count);
      GoStep(Bar, more, stack, length + BranchLength(b), count + BranchCount(b));
      GoAlts(alts.more, rest, stack, length + BranchLength(b) + 3, count + BranchCount(b));
    } else {
      GoBranch(b, rest, stack, length, count);
    }
  }

  lemma AltsParts(alts: Alts, rest: seq<Token>)
    ensures alts.Alt? ==> AltsTokens(alts) + rest == BranchTokens(alts.b) + ([Bar] + (AltsTokens(alts.more) + rest))
    ensures alts.Last? ==> AltsTokens(alts) + rest == BranchTokens(alts.b) + rest
    ensures AltsDepth(alts) == if alts.Alt? && AltsDepth(alts.more) > BranchDepth(alts.b) then AltsDepth(alts.more) else BranchDepth(alts.b)
  {
    if alts.Alt? {
      Assoc(BranchTokens(alts.b), [Bar] + AltsTokens(alts.more), rest);
      Assoc([Bar], AltsTokens(alts.more), rest);
    } else {
      assert AltsTokens(alts) == BranchTokens(alts.b) + [];
    }
  }

  lemma {:induction false} PieceDeep(p: Piece, rest: seq<Token>, stack: seq<int>, length: int, count: nat)
    requires ValidAtom(p.a) && NumberedPiece(p, count) && |stack| + PieceDepth(p) > BRASTACK_SIZE >= |stack|
    ensures Go(PieceTokens(p) + rest, stack, length, count) == None
    decreases p
  {
    var cap, body := p.a.cap, AltsTokens(p.a.alts);
    var n := if cap > 0 then count + 1 else count;
    hide Go;
    Flatten(Open(cap > 0), body, Close(p.q), rest);
    GoStep(Open(cap > 0), body + ([Close(p.q)] + rest), stack, length, count);
    if |stack| < BRASTACK_SIZE {
      AltsDeep(p.a.alts, [Close(p.q)] + rest, stack + [length], length + OpenLength(cap > 0, n), n);
    }
  }

  lemma {:induction false} BranchDeep(b: Branch, rest: seq<Token>, stack: seq<int>, length: int, count: nat)
    requires ValidBranch(b) && NumberedBranch(b, count) && |stack| + BranchDepth(b) > BRASTACK_SIZE >= |stack|
    ensures Go(BranchTokens(b) + rest, stack, length, count) == None
    decreases b
  {
    hide Go, PieceTokens, PieceLength, PieceCount;
    assert BranchTokens(b) + rest == PieceTokens(b.hd) + (BranchTokens(b.tl) + rest);
    if |stack| + PieceDepth(b.hd) > BRASTACK_SIZE {
      PieceDeep(b.hd, BranchTokens(b.tl) + rest, stack, length, count);
    } else {
      GoPiece(b.hd, BranchTokens(b.tl) + rest, stack, length, count);
      BranchDeep(b.tl, rest, stack, length + PieceLength(b.hd), count + PieceCount(b.hd));
    }
  }

  lemma {:induction false} AltsDeep(alts: Alts, rest: seq<Token>, stack: seq<int>, length: int, count: nat)
    requires ValidAlts(alts) && NumberedAlts(alts, count) && |stack| + AltsDepth(alts) > BRASTACK_SIZE >= |stack|
    ensures Go(AltsTokens(alts) + rest, stack, length, count) == None
    decreases alts
  {
    hide Go, AltsTokens, BranchTokens, AltsLength, BranchLength, AltsCount, BranchCount, AltsDepth, BranchDepth;
    hide ValidAlts, ValidBranch, NumberedAlts, NumberedBranch;
    var b := alts.b;
    AltsStep(alts, count);
    AltsParts(alts, rest);
    if |stack| + BranchDepth(b) > BRASTACK_SIZE {
      BranchDeep(b, if alts.Alt? then [Bar] + (AltsTokens(alts.more) + rest) else rest, stack, length, count);
    } else {
      var more := AltsTokens(alts.more) + rest;
      GoBranch(b, [Bar] + more, stack, length, count);
      GoStep(Bar, more, stack, length + BranchLength(b), count + BranchCount(b));
      AltsDeep(alts.more, rest, stack, length + BranchLength(b) + 3, count + BranchCount(b));
    }
  }

  /** The first pass over the items of a pattern: the length to allow for and the number of capturing groups. */
  method ScanLengths(toks: seq<Token>) returns (err: int, length: int, bracount: nat)
    ensures var r := Go(toks, [], 3, 0);
            if r.None? then err == ERR19 else err == 0 && length == r.value.0 + 4 && bracount == r.value.1
  {
    hide Go, CloseExtra;
    var brastack := new int[BRASTACK_SIZE];
    var brastackptr := 0;
    err, length, bracount := 0, 3, 0;
    var i := 0;
    while i < |toks|
      invariant 0 <= i <= |toks| && 0 <= brastackptr <= BRASTACK_SIZE && err == 0
      invariant Go(toks[i..], brastack[..brastackptr], length, bracount) == Go(toks, [], 3, 0)
    {
      ghost var stack := brastack[..brastackptr];
      assert toks[i..] == [toks[i]] + toks[i + 1..];
      GoStep(toks[i], toks[i + 1..], stack, length, bracount);
      match toks[i] {
        case Item(p) => length := length + PieceLength(p);
        case Bar => length := length + 3;
        case Open(capturing) =>
          if capturing { bracount := bracount + 1; }
          if brastackptr >= BRASTACK_SIZE { return ERR19, length, bracount; }
          brastack[brastackptr] := length;
          brastackptr := brastackptr + 1;
          assert brastack[..brastackptr] == stack + [length];
          length := length + OpenLength(capturing, bracount);
        case Close(q) =>
          length := length + 3;
          var duplength := 0;
          if brastackptr > 0 {
            brastackptr := brastackptr - 1;
            duplength := length - brastack[brastackptr];
            assert stack[..brastackptr] == brastack[..brastackptr];
          }
          length := length + CloseExtra(duplength, q);
      }
      i := i + 1;
    }
    GoNone(brastack[..brastackptr], length, bracount);
    assert toks[i..] == [];
    length := length + 4;
  }

  lemma GoNone(stack: seq<int>, length: int, count: nat)
    ensures Go([], stack, length, count) == Some((length, count))
  {
  }

  /** On the items of a pattern the loop finds the length that its structure gives, or that it is nested too deeply. */
  lemma ScanIs(alts: Alts)
    requires ValidAlts(alts) && NumberedAlts(alts, 0)
    ensures Go(AltsTokens(alts), [], 3, 0) ==
            if AltsDepth(alts) > BRASTACK_SIZE then None else Some((PatternLength(alts) - 4, AltsCount(alts)))
  {
    hide Go, AltsTokens, AltsLength, AltsCount, AltsDepth, ValidAlts, NumberedAlts;
    GoNone([], 3 + AltsLength(alts), AltsCount(alts));
    assert AltsTokens(alts) + [] == AltsTokens(alts);
    if AltsDepth(alts) > BRASTACK_SIZE {
      AltsDeep(alts, [], [], 3, 0);
    } else {
      GoAlts(alts, [], [], 3, 0);
    }
  }
}
