/**
 * The first-byte and required-byte hints that compile_branch and compile_regex carry along, and
 * their soundness: every match begins with the first byte, and contains the required byte.
 */
module Hints {
  import opened Bytes
  import opened Subject
  import opened Regex
  import opened Language

  /** REQ_UNSET, REQ_NONE, or a byte with its REQ_CASELESS and REQ_VARY flags. */
  datatype Hint = Unset | Nothing | Known(c: byte, nocase: bool, vary: bool)

  /** The hint variables of compile_branch; `vary` is cd->req_varyopt. */
  datatype Hints = Hints(first: Hint, req: Hint, zeroFirst: Hint, zeroReq: Hint, groupSetFirst: bool, vary: bool)

  /** What compile_regex passes back. */
  datatype Found = Found(first: Hint, req: Hint, vary: bool)

  function Fresh(vary: bool): Hints {
    Hints(Unset, Unset, Unset, Unset, false, vary)
  }

  function LitHints(o: Options, h: Hints, run: seq<byte>): Hints
    requires |run| >= 1
  {
    var n := |run|;
    var last := Known(run[n - 1], o.caseless, h.vary);
    if h.first.Unset? then
      var first := Known(run[0], o.caseless, false);
      if n == 1 then h.(first := first, zeroFirst := Nothing, zeroReq := h.req)
      else h.(first := first, zeroFirst := first, req := last,
              zeroReq := if n > 2 then Known(run[n - 2], o.caseless, h.vary) else h.req)
    else
      h.(zeroFirst := h.first, req := last,
         zeroReq := if n == 1 then h.req else Known(run[n - 2], o.caseless, h.vary))
  }

  /** A class, a negated byte, a character type or `.`. */
  function SingleHints(h: Hints): Hints {
    var first := if h.first.Unset? then Nothing else h.first;
    h.(first := first, zeroFirst := first, zeroReq := h.req)
  }

  /** After a group that reported `f`; `before` is the vary flag at its start. */
  function GroupHints(h: Hints, f: Found, before: bool): Hints {
    var first := if !h.first.Unset? then h.first else if f.first.Known? then f.first else Nothing;
    var req := if !h.first.Unset? && f.first.Known? && !f.req.Known? then f.first.(vary := f.first.vary || before) else f.req;
    Hints(first, if req.Known? then req else h.req,
          if h.first.Unset? then Nothing else h.first, h.req,
          h.first.Unset? && f.first.Known?, f.vary)
  }

  function AtomHints(o: Options, h: Hints, a: Atom): Hints
    requires ValidAtom(a)
    decreases a, 1
  {
    match a
    case Lit(run) => LitHints(o, h, run)
    case Single(_) => SingleHints(h)
    case Circ => if o.multiline && h.first.Unset? then h.(first := Nothing) else h
    case Doll => h
    case Group(_, alts) => GroupHints(h, AltsHints(o, alts, h.vary), h.vary)
  }

  /** The adjustments made when a quantifier follows. */
  function QuantHints(o: Options, h: Hints, p: Piece): Hints
    requires ValidAtom(p.a)
  {
    if p.q.Once? then h else
    var h1 := if p.q.min == 0 then h.(first := h.zeroFirst, req := h.zeroReq) else h;
    var h2 := if p.q.min <= 1 then h1
              else if p.a.Lit? && |p.a.run| == 1 then h1.(req := Known(p.a.run[0], o.caseless, h.vary))
              else if p.a.Group? && h1.groupSetFirst && !h1.req.Known? then h1.(req := h1.first)
              else h1;
    h2.(vary := h.vary || p.q.min != p.q.max)
  }

  function PieceHints(o: Options, h: Hints, p: Piece): Hints
    requires ValidAtom(p.a)
    decreases p, 1
  {
    QuantHints(o, AtomHints(o, h, p.a), p)
  }

  function BranchHints(o: Options, h: Hints, b: Branch): Hints
    requires ValidBranch(b)
    decreases b, 0
  {
    if b.Nil? then h else BranchHints(o, PieceHints(o, h, b.hd), b.tl)
  }

  /** The hints of each kind of item. */
  lemma AtomIs(o: Options, h: Hints, a: Atom)
    requires ValidAtom(a)
    ensures AtomHints(o, h, a) ==
            if a.Lit? then LitHints(o, h, a.run)
            else if a.Single? then SingleHints(h)
            else if a.Circ? then if o.multiline && h.first.Unset? then h.(first := Nothing) else h
            else if a.Doll? then h
            else GroupHints(h, AltsHints(o, a.alts, h.vary), h.vary)
  {
  }

  predicate SameReq(a: Hint, b: Hint) {
    if a.Known? && b.Known? then a.c == b.c && a.nocase == b.nocase else a == b
  }

  /** Combines what the earlier alternatives gave with what the next one gives. */
  function Merge(f: Found, h: Hints): Found {
    var clash := f.first.Known? && f.first != h.first;
    var first := if clash then Nothing else f.first;
    var req := if clash && !f.req.Known? then f.first else f.req;
    var more := if !first.Known? && h.first.Known? && !h.req.Known? then h.first else h.req;
    Found(first,
          if !SameReq(req, more) then Nothing
          else if req.Known? then req.(vary := req.vary || more.vary) else req,
          h.vary)
  }

  function FirstFound(o: Options, b: Branch, vary: bool): Found
    requires ValidBranch(b)
    decreases b, 2
  {
    var h := BranchHints(o, Fresh(vary), b);
    Found(h.first, h.req, h.vary)
  }

  function AltsHints(o: Options, alts: Alts, vary: bool): Found
    requires ValidAlts(alts)
    decreases alts, 1
  {
    var f := FirstFound(o, alts.b, vary);
    if alts.Alt? then MoreHints(o, alts.more, f) else f
  }

  function MoreHints(o: Options, alts: Alts, f: Found): Found
    requires ValidAlts(alts)
    decreases alts, 0
  {
    var g := Merge(f, BranchHints(o, Fresh(f.vary), alts.b));
    if alts.Alt? then MoreHints(o, alts.more, g) else g
  }

  /** The hints of a bracket after its first alternative, or after one more. */
  function NextFound(first: bool, f: Found, h: Hints): Found {
    if first then Found(h.first, h.req, h.vary) else Merge(f, h)
  }

  /** `f` is what the alternatives before `rest` gave (none if `first`). */
  ghost predicate OnTheWay(o: Options, alts: Alts, vary: bool, first: bool, f: Found, v: bool, rest: Alts)
    requires ValidAlts(alts) && ValidAlts(rest)
  {
    if first then v == vary && rest == alts else f.vary == v && MoreHints(o, rest, f) == AltsHints(o, alts, vary)
  }

  lemma FirstOnTheWay(o: Options, alts: Alts, vary: bool, f: Found)
    requires ValidAlts(alts)
    ensures OnTheWay(o, alts, vary, true, f, vary, alts)
  {
  }

  lemma OnTheWayStep(o: Options, alts: Alts, vary: bool, first: bool, f: Found, v: bool, rest: Alts)
    requires ValidAlts(alts) && ValidAlts(rest) && OnTheWay(o, alts, vary, first, f, v, rest)
    ensures var h := BranchHints(o, Fresh(v), rest.b);
            var g := NextFound(first, f, h);
            if rest.Alt? then OnTheWay(o, alts, vary, false, g, h.vary, rest.more) else g == AltsHints(o, alts, vary)
  {
  }

  // ----- soundness -----

  /** A hint is about the byte `c`. */
  ghost predicate Like(E: Env, h: Hint, c: byte)
    requires h.Known?
  {
    SameByte(E, h.c, c)
  }

  ghost predicate FirstOk(E: Env, first: Hint, i: nat, j: nat) {
    first.Known? ==> i < j <= |E.s| && Like(E, first, E.s[i])
  }

  /** The required byte occurs, strictly after the first byte if that is known. */
  ghost predicate ReqOk(E: Env, first: Hint, req: Hint, i: nat, j: nat) {
    req.Known? ==> exists p :: i <= p < j <= |E.s| && Like(E, req, E.s[p]) && (first.Known? ==> i < p)
  }

  ghost predicate Sound(E: Env, first: Hint, req: Hint, i: nat, j: nat) {
    i <= j <= |E.s| && FirstOk(E, first, i, j) && ReqOk(E, first, req, i, j)
  }

  /** The state after matching from `i` to `j`: sound, and nothing consumed while no byte was seen. */
  ghost predicate Good(E: Env, h: Hints, i: nat, j: nat) {
    Sound(E, h.first, h.req, i, j) && (h.first.Unset? ==> h.req.Unset? && i == j)
  }

  lemma SoundOn(E: Env, first: Hint, req: Hint, i: nat, j: nat, j1: nat)
    requires Sound(E, first, req, i, j) && j <= j1 <= |E.s|
    ensures Sound(E, first, req, i, j1)
  {
    if req.Known? {
      var p :| i <= p < j <= |E.s| && Like(E, req, E.s[p]) && (first.Known? ==> i < p);
      assert i <= p < j1;
    }
  }

  /** A byte at `p` makes a sound required byte. */
  lemma SoundReq(E: Env, first: Hint, req: Hint, i: nat, j: nat, p: nat)
    requires i <= p < j <= |E.s| && FirstOk(E, first, i, j) && (first.Known? ==> i < p)
    requires req.Known? ==> Like(E, req, E.s[p])
    ensures Sound(E, first, req, i, j)
  {
  }

  lemma LitGood(E: Env, h: Hints, p: Piece, i: nat, m: nat, j: nat)
    requires ValidAtom(p.a) && p.q.Valid() && p.a.Lit? && Good(E, h, i, m) && LangPiece(E, p, m, j)
    ensures Good(E, PieceHints(E.opt, h, p), i, j)
  {
    var run, n := p.a.run, |p.a.run|;
    AtomIs(E.opt, h, p.a);
    if p.q.Once? {
      LitRunGood(E, h, run, i, m);
    } else {
      var k: nat :| LangTest(E, Char(run[n - 1]), k, m + n - 1, j) && Allowed(p.q, k);
      if p.q.min == 0 {
        LitZeroGood(E, h, run, i, m);
        var h1 := LitHints(E.opt, h, run);
        SoundOn(E, h1.zeroFirst, h1.zeroReq, i, m + n - 1, j);
      } else {
        LitRepGood(E, h, p, i, m, k, j);
      }
    }
  }

  /** A run whose last byte occurs `k` times, at least once. */
  lemma LitRepGood(E: Env, h: Hints, p: Piece, i: nat, m: nat, k: nat, j: nat)
    requires ValidAtom(p.a) && p.q.Valid() && p.a.Lit? && p.q.Rep? && p.q.min > 0 && Good(E, h, i, m)
    requires var run, n := p.a.run, |p.a.run|;
             RunAt(E, run[..n - 1], m) && LangTest(E, Char(run[n - 1]), k, m + n - 1, j) && p.q.min <= k
    ensures Good(E, PieceHints(E.opt, h, p), i, j)
  {
    var run, n := p.a.run, |p.a.run|;
    AtomIs(E.opt, h, p.a);
    var h1 := LitHints(E.opt, h, run);
    assert RunAt(E, run, m) by {
      forall x | 0 <= x < n ensures SameByte(E, run[x], E.s[m + x]) {
        if x < n - 1 { assert run[x] == run[..n - 1][x]; }
      }
    }
    LitRunGood(E, h, run, i, m);
    SoundOn(E, h1.first, h1.req, i, m + n, j);
    if p.q.min > 1 && n == 1 {
      SoundReq(E, h1.first, Known(run[0], E.opt.caseless, h.vary), i, j, m + 1);
    }
  }

  lemma LitRunGood(E: Env, h: Hints, run: seq<byte>, i: nat, m: nat)
    requires |run| >= 1 && Good(E, h, i, m) && RunAt(E, run, m)
    ensures var h1 := LitHints(E.opt, h, run); !h1.first.Unset? && Sound(E, h1.first, h1.req, i, m + |run|)
  {
    var n, h1 := |run|, LitHints(E.opt, h, run);
    SoundOn(E, h.first, h.req, i, m, m + n);
    assert SameByte(E, run[0], E.s[m + 0]) && SameByte(E, run[n - 1], E.s[m + (n - 1)]);
    if !(h.first.Unset? && n == 1) {
      SoundReq(E, h1.first, h1.req, i, m + n, m + n - 1);
    }
  }

  lemma LitZeroGood(E: Env, h: Hints, run: seq<byte>, i: nat, m: nat)
    requires |run| >= 1 && Good(E, h, i, m) && RunAt(E, run[..|run| - 1], m) && m + |run| - 1 <= |E.s|
    ensures var h1 := LitHints(E.opt, h, run);
            !h1.zeroFirst.Unset? && Sound(E, h1.zeroFirst, h1.zeroReq, i, m + |run| - 1)
  {
    var n, h1 := |run|, LitHints(E.opt, h, run);
    SoundOn(E, h.first, h.req, i, m, m + n - 1);
    if n > 1 {
      assert SameByte(E, run[..n - 1][0], E.s[m + 0]) && SameByte(E, run[..n - 1][n - 2], E.s[m + (n - 2)]);
      assert run[..n - 1][0] == run[0] && run[..n - 1][n - 2] == run[n - 2];
      if n > 2 || !h.first.Unset? {
        SoundReq(E, h1.zeroFirst, h1.zeroReq, i, m + n - 1, m + n - 2);
      }
    }
  }

  lemma SingleGood(E: Env, h: Hints, p: Piece, i: nat, m: nat, j: nat)
    requires ValidAtom(p.a) && p.q.Valid() && p.a.Single? && Good(E, h, i, m) && LangPiece(E, p, m, j)
    ensures Good(E, PieceHints(E.opt, h, p), i, j)
  {
    var n: nat :| LangTest(E, p.a.t, n, m, j) && Allowed(p.q, n);
    SoundOn(E, h.first, h.req, i, m, j);
    AtomIs(E.opt, h, p.a);
  }

  lemma {:induction false} PowerForward(E: Env, alts: Alts, vary: bool, n: nat, i: nat, j: nat)
    requires ValidAlts(alts) && RepeatableAlts(alts) && LangPower(E, alts, n, i, j) && i <= |E.s|
    ensures i <= j <= |E.s|
    decreases alts, 3, n
  {
    if n > 0 {
      var m := PowerSplit(E, alts, n, i, j);
      AltsGood(E, alts, vary, i, m);
      PowerForward(E, alts, vary, n - 1, m, j);
    }
  }

  lemma {:induction false} GroupGood(E: Env, h: Hints, p: Piece, i: nat, m: nat, j: nat)
    requires ValidAtom(p.a) && p.q.Valid() && p.a.Group? && RepeatableAlts(p.a.alts) && Good(E, h, i, m) && LangPiece(E, p, m, j)
    ensures Good(E, PieceHints(E.opt, h, p), i, j)
    decreases p, 1
  {
    var alts := p.a.alts;
    var f, h1 := AltsHints(E.opt, alts, h.vary), AtomHints(E.opt, h, p.a);
    var n: nat :| LangPower(E, alts, n, m, j) && Allowed(p.q, n);
    PowerForward(E, alts, h.vary, n, m, j);
    SoundOn(E, h.first, h.req, i, m, j);
    if n > 0 {
      var m1 := PowerSplit(E, alts, n, m, j);
      AltsGood(E, alts, h.vary, m, m1);
      PassGood(E, h, f, i, m, m1);
      PowerForward(E, alts, h.vary, n - 1, m1, j);
      SoundOn(E, h1.first, h1.req, i, m1, j);
      if n > 1 && h1.groupSetFirst {
        var m2 := PowerSplit(E, alts, n - 1, m1, j);
        AltsGood(E, alts, h.vary, m1, m2);
        PowerForward(E, alts, h.vary, n - 2, m2, j);
        if !h1.req.Known? { SoundReq(E, h1.first, h1.first, i, j, m1); }
      }
    }
  }

  /** One pass through a group after a prefix. */
  lemma PassGood(E: Env, h: Hints, f: Found, i: nat, m: nat, m1: nat)
    requires Good(E, h, i, m) && Sound(E, f.first, f.req, m, m1)
    ensures var h1 := GroupHints(h, f, h.vary); Sound(E, h1.first, h1.req, i, m1)
  {
    var h1 := GroupHints(h, f, h.vary);
    SoundOn(E, h.first, h.req, i, m, m1);
    if f.req.Known? {
      var p :| m <= p < m1 <= |E.s| && Like(E, f.req, E.s[p]) && (f.first.Known? ==> m < p);
      SoundReq(E, h1.first, f.req, i, m1, p);
    } else if f.first.Known? && !h.first.Unset? {
      SoundReq(E, h1.first, h1.req, i, m1, m);
    }
  }

  lemma PlainGood(E: Env, h: Hints, p: Piece, i: nat, m: nat)
    requires (p.a.Circ? || p.a.Doll?) && p.q.Once? && Good(E, h, i, m)
    ensures Good(E, PieceHints(E.opt, h, p), i, m)
  {
  }

  lemma {:induction false} BranchGood(E: Env, b: Branch, h: Hints, i: nat, m: nat, j: nat)
    requires ValidBranch(b) && Repeatable(b) && Good(E, h, i, m) && LangBranch(E, b, m, j)
    ensures Good(E, BranchHints(E.opt, h, b), i, j)
    decreases b, 2
  {
    if b.Cons? {
      var m1: nat :| LangPiece(E, b.hd, m, m1) && LangBranch(E, b.tl, m1, j);
      match b.hd.a {
        case Lit(_) => LitGood(E, h, b.hd, i, m, m1);
        case Single(_) => SingleGood(E, h, b.hd, i, m, m1);
        case Circ => PlainGood(E, h, b.hd, i, m);
        case Doll => PlainGood(E, h, b.hd, i, m);
        case Group(_, _) => GroupGood(E, h, b.hd, i, m, m1);
      }
      BranchGood(E, b.tl, PieceHints(E.opt, h, b.hd), i, m1, j);
    }
  }

  lemma {:induction false} FirstGood(E: Env, b: Branch, vary: bool, i: nat, j: nat)
    requires ValidBranch(b) && Repeatable(b) && LangBranch(E, b, i, j) && i <= |E.s|
    ensures var h := BranchHints(E.opt, Fresh(vary), b); Sound(E, h.first, h.req, i, j)
    decreases b, 3
  {
    assert Good(E, Fresh(vary), i, i);
    BranchGood(E, b, Fresh(vary), i, i, j);
  }

  /** The hints of a group are sound for each of its matches. */
  lemma {:induction false} AltsGood(E: Env, alts: Alts, vary: bool, i: nat, j: nat)
    requires ValidAlts(alts) && RepeatableAlts(alts) && LangAlts(E, alts, i, j) && i <= |E.s|
    ensures var f := AltsHints(E.opt, alts, vary); Sound(E, f.first, f.req, i, j)
    decreases alts, 2
  {
    var f := FirstFound(E.opt, alts.b, vary);
    if LangBranch(E, alts.b, i, j) {
      FirstGood(E, alts.b, vary, i, j);
      if alts.Alt? { MoreKeeps(E, alts.more, f, i, j); }
    } else {
      MoreGood(E, alts.more, f, i, j);
    }
  }

  /** Merging keeps what was sound for a match of an earlier alternative... */
  lemma MergeKeeps(E: Env, f: Found, h: Hints, i: nat, j: nat)
    requires Sound(E, f.first, f.req, i, j)
    ensures var g := Merge(f, h); Sound(E, g.first, g.req, i, j)
  {
    var g := Merge(f, h);
    if f.req.Known? {
      var p :| i <= p < j <= |E.s| && Like(E, f.req, E.s[p]) && (f.first.Known? ==> i < p);
      SoundReq(E, g.first, g.req, i, j, p);
    } else if f.first.Known? && f.first != h.first {
      SoundReq(E, g.first, g.req, i, j, i);
    }
  }

  /** ... and makes what is sound for the next alternative sound for the merged hints. */
  lemma MergeGood(E: Env, f: Found, h: Hints, i: nat, j: nat)
    requires Sound(E, h.first, h.req, i, j)
    ensures var g := Merge(f, h); Sound(E, g.first, g.req, i, j)
  {
    var g := Merge(f, h);
    if h.req.Known? {
      var p :| i <= p < j <= |E.s| && Like(E, h.req, E.s[p]) && (h.first.Known? ==> i < p);
      SoundReq(E, g.first, g.req, i, j, p);
    } else if h.first.Known? && !g.first.Known? {
      SoundReq(E, g.first, g.req, i, j, i);
    }
  }

  lemma {:induction false} MoreKeeps(E: Env, alts: Alts, f: Found, i: nat, j: nat)
    requires ValidAlts(alts) && Sound(E, f.first, f.req, i, j)
    ensures var g := MoreHints(E.opt, alts, f); Sound(E, g.first, g.req, i, j)
    decreases alts, 0
  {
    var h := BranchHints(E.opt, Fresh(f.vary), alts.b);
    MergeKeeps(E, f, h, i, j);
    if alts.Alt? { MoreKeeps(E, alts.more, Merge(f, h), i, j); }
  }

  lemma {:induction false} MoreGood(E: Env, alts: Alts, f: Found, i: nat, j: nat)
    requires ValidAlts(alts) && RepeatableAlts(alts) && LangAlts(E, alts, i, j) && i <= |E.s|
    ensures var g := MoreHints(E.opt, alts, f); Sound(E, g.first, g.req, i, j)
    decreases alts, 1
  {
    var h := BranchHints(E.opt, Fresh(f.vary), alts.b);
    if LangBranch(E, alts.b, i, j) {
      FirstGood(E, alts.b, f.vary, i, j);
      MergeGood(E, f, h, i, j);
      if alts.Alt? { MoreKeeps(E, alts.more, Merge(f, h), i, j); }
    } else {
      MoreGood(E, alts.more, Merge(f, h), i, j);
    }
  }
}
