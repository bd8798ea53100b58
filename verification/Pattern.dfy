/**
 * The second half of pcre_compile: the compiled pattern with what pcre_exec needs to know about
 * it, and that what it records is true of every match.
 */
module Pattern {
  import opened Wrappers
  import opened Bytes
  import opened Opcodes
  import opened Subject
  import opened Regex
  import opened Program
  import opened Lower
  import opened FirstPass
  import opened Numbering
  import opened Hints
  import opened CodeText
  import opened Compiler
  import opened Correct
  import opened Anchor
  import opened Lengths

  const ERR9 := 9      // nothing to repeat
  const ERR20 := 20    // regular expression too large
  const ERR23 := 23    // internal error: code overflow

  /** A first or required byte, with its REQ_CASELESS flag. */
  datatype FixedByte = FixedByte(c: byte, nocase: bool)

  /** What `real_pcre` records. */
  datatype Pcre = Pcre(
    code: seq<byte>,
    tab: TableSet,
    opt: Options,
    topBracket: nat,
    anchored: bool,
    startline: bool,
    first: Option<FixedByte>,
    req: Option<FixedByte>)

  datatype Compiled = Ok(re: Pcre) | Err(code: int)

  /** Drops the caseless flag of a byte that has no other case. */
  function Fixed(tab: TableSet, h: Hint): FixedByte
    requires h.Known?
  {
    FixedByte(h.c, h.nocase && tab.fcc[h.c] != h.c)
  }

  /** Whether a fixed byte and a subject byte agree, the way pcre_exec compares them. */
  predicate FirstMatches(tab: TableSet, f: FixedByte, c: byte) {
    if f.nocase then tab.lcc[c] == tab.lcc[f.c] else c == f.c
  }

  predicate ReqMatches(tab: TableSet, f: FixedByte, c: byte) {
    c == f.c || (f.nocase && c == tab.fcc[f.c])
  }

  // ----- every hint carries the case option of the pattern -----

  predicate Cased(o: Options, h: Hint) {
    h.Known? ==> h.nocase == o.caseless
  }

  predicate AllCased(o: Options, h: Hints) {
    Cased(o, h.first) && Cased(o, h.req) && Cased(o, h.zeroFirst) && Cased(o, h.zeroReq)
  }

  lemma {:induction false} AtomCased(o: Options, h: Hints, a: Atom)
    requires ValidAtom(a) && AllCased(o, h)
    ensures AllCased(o, AtomHints(o, h, a))
    decreases a, 1
  {
    AtomIs(o, h, a);
    if a.Group? { AltsCased(o, a.alts, h.vary); }
  }

  lemma {:induction false} BranchCased(o: Options, h: Hints, b: Branch)
    requires ValidBranch(b) && AllCased(o, h)
    ensures AllCased(o, BranchHints(o, h, b))
    decreases b
  {
    if b.Cons? {
      AtomCased(o, h, b.hd.a);
      BranchCased(o, PieceHints(o, h, b.hd), b.tl);
    }
  }

  lemma {:induction false} AltsCased(o: Options, alts: Alts, vary: bool)
    requires ValidAlts(alts)
    ensures var f := AltsHints(o, alts, vary); Cased(o, f.first) && Cased(o, f.req)
    decreases alts, 0
  {
    BranchCased(o, Fresh(vary), alts.b);
    if alts.Alt? { MoreCased(o, alts.more, FirstFound(o, alts.b, vary)); }
  }

  lemma {:induction false} MoreCased(o: Options, alts: Alts, f: Found)
    requires ValidAlts(alts) && Cased(o, f.first) && Cased(o, f.req)
    ensures var g := MoreHints(o, alts, f); Cased(o, g.first) && Cased(o, g.req)
    decreases alts, 0
  {
    BranchCased(o, Fresh(f.vary), alts.b);
    if alts.Alt? { MoreCased(o, alts.more, Merge(f, BranchHints(o, Fresh(f.vary), alts.b))); }
  }

  // ----- what is recorded -----

  ghost predicate FirstByteOk(re: Pcre, E: Env, i: nat, j: nat) {
    re.first.Some? ==> i < j <= |E.s| && FirstMatches(re.tab, re.first.value, E.s[i])
  }

  ghost predicate ReqByteOk(re: Pcre, E: Env, i: nat, j: nat) {
    re.req.Some? ==> exists p :: i <= p < j <= |E.s| && ReqMatches(re.tab, re.req.value, E.s[p]) && (re.first.Some? ==> i < p)
  }

  lemma LikeFirst(E: Env, h: Hint, c: byte)
    requires E.tab.CaseConsistent() && h.Known? && h.nocase == E.opt.caseless && Like(E, h, c)
    ensures FirstMatches(E.tab, Fixed(E.tab, h), c)
  {
  }

  lemma LikeReq(E: Env, h: Hint, c: byte)
    requires E.tab.CaseConsistent() && h.Known? && h.nocase == E.opt.caseless && Like(E, h, c)
    ensures ReqMatches(E.tab, Fixed(E.tab, h), c)
  {
  }

  /** `re` is what compiling `alts` gives; `forced` is the ANCHORED option. */
  ghost predicate Describes(re: Pcre, alts: Alts, forced: bool) {
    ValidAlts(alts) && RepeatableAlts(alts) && NumberedAlts(alts, 0) &&
    ValidNode(LowerPattern(alts)) && re.code == CompiledPattern(alts) && |re.code| <= MAX_PATTERN_SIZE &&
    re.topBracket == AltsCount(alts) &&
    (var f := AltsHints(re.opt, alts, false);
     && (re.anchored <==> forced || BeginsAlts(re.opt, true, alts))
     && re.first == (if !re.anchored && f.first.Known? then Some(Fixed(re.tab, f.first)) else None)
     && (re.startline <==> !re.anchored && !f.first.Known? && BeginsAlts(re.opt, false, alts))
     && re.req == if f.req.Known? && (!re.anchored || f.req.vary) then Some(Fixed(re.tab, f.req)) else None)
  }

  /**
   * The recorded bytes are found in every match: the first one at its start, the required one in
   * it, and after its first byte if that is fixed too.
   */
  lemma BytesSound(re: Pcre, alts: Alts, forced: bool, E: Env, i: nat, j: nat)
    requires Describes(re, alts, forced) && E.opt == re.opt && E.tab == re.tab && re.tab.CaseConsistent()
    requires i <= |E.s| && LangAlts(E, alts, i, j)
    ensures i <= j <= |E.s| && FirstByteOk(re, E, i, j) && ReqByteOk(re, E, i, j)
  {
    var f := AltsHints(re.opt, alts, false);
    AltsGood(E, alts, false, i, j);
    AltsCased(re.opt, alts, false);
    if re.first.Some? { LikeFirst(E, f.first, E.s[i]); }
    if re.req.Some? {
      var p :| i <= p < j <= |E.s| && Like(E, f.req, E.s[p]) && (f.first.Known? ==> i < p);
      LikeReq(E, f.req, E.s[p]);
    }
  }

  /** The second pass over a pattern: its code, with the final OP_END, in a block of the size the first pass gave. */
  method SecondPass(alts: Alts, opt: Options, length: int) returns (err: int, code: seq<byte>, brackets: nat, f: Found)
    requires ValidAlts(alts) && NumberedAlts(alts, 0) && length == PatternLength(alts)
    ensures err == if PatternLength(alts) > MAX_PATTERN_SIZE then ERR20 else if RepeatableAlts(alts) then 0 else ERR9
    ensures err == 0 ==> ValidNode(LowerPattern(alts)) && code == CompiledPattern(alts) && |code| <= MAX_PATTERN_SIZE
    ensures err == 0 ==> brackets == AltsCount(alts) && f == AltsHints(opt, alts, false)
  {
    hide EncNode, EncCode, LowerAlts, AltsHints, AltsLength;
    PatternFits(alts);
    AltsRoom(alts);
    assert Tagged(0, LowerAlts(alts)) == LowerAlts(alts);
    code, brackets, f := [], 0, Found(Unset, Unset, false);
    if length > MAX_PATTERN_SIZE { return ERR20, [], 0, f; }
    var block := new byte[length];
    var cd := new CompileData(block, opt);
    block[0] := OP_BRA;
    var ok, at, found := cd.CompileRegex(alts, 0, 0, false, 0);
    if !ok { return ERR9, [], 0, f; }
    block[at] := OP_END;
    at := at + 1;
    err := if at > length then ERR23 else 0;
    code, brackets, f := block[..at], cd.brackets, found;
  }

  /** The finished code is one bracket, at its start. */
  lemma WholeBracket(alts: Alts)
    requires ValidAlts(alts) && ValidNode(LowerPattern(alts))
    ensures Layout.AltsAt(CompiledPattern(alts), 0, OP_BRA, LowerAlts(alts), LowerPattern(alts), Machine.Top(Empty, -1))
  {
    hide EncNode;
    AtGroup([], LowerPattern(alts));
    assert [] + EncNode(LowerPattern(alts)) + [OP_END] == CompiledPattern(alts);
  }

  /** pcre_compile on the items of a pattern; `forced` is the ANCHORED option. ERR23 never arises. */
  method Compile(alts: Alts, opt: Options, tab: TableSet, forced: bool) returns (r: Compiled)
    requires ValidAlts(alts) && NumberedAlts(alts, 0)
    ensures r.Err? <==> AltsDepth(alts) > BRASTACK_SIZE || PatternLength(alts) > MAX_PATTERN_SIZE || !RepeatableAlts(alts)
    ensures r.Err? ==> r.code == if AltsDepth(alts) > BRASTACK_SIZE then ERR19 else if PatternLength(alts) > MAX_PATTERN_SIZE then ERR20 else ERR9
    ensures r.Ok? ==> Describes(r.re, alts, forced) && r.re.opt == opt && r.re.tab == tab
  {
    ScanIs(alts);
    var scan, length, bracount := ScanLengths(AltsTokens(alts));
    if scan != 0 { return Err(scan); }
    var err, code, brackets, f := SecondPass(alts, opt, length);
    if err != 0 { return Err(err); }
    var re := Pcre(code, tab, opt, brackets, forced, false, None, None);
    if !forced {
      ghost var a, root, k := LowerAlts(alts), LowerPattern(alts), Machine.Top(Empty, -1);
      WholeBracket(alts);
      BeginsAltsKept(opt, true, alts);
      BeginsAltsKept(opt, false, alts);
      var anchored := IsAnchored(code, 0, opt, OP_BRA, a, root, k);
      if anchored {
        re := re.(anchored := true);
      } else if f.first.Known? {
        re := re.(first := Some(Fixed(tab, f.first)));
      } else {
        var startline := IsStartline(code, 0, opt, OP_BRA, a, root, k);
        re := re.(startline := startline);
      }
    }
    if f.req.Known? && (!re.anchored || f.req.vary) {
      re := re.(req := Some(Fixed(tab, f.req)));
    }
    r := Ok(re);
  }
}
