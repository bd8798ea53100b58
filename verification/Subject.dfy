/**
 * What a single position of the subject can satisfy: one-byte tests, literal runs and the
 * zero-width `^` and `$`, under options that are fixed for the whole pattern.
 */
module Subject {
  import opened Bytes

  /** The character tables that matching and compiling consult. */
  datatype Tables = Tables(lcc: seq<byte>, fcc: seq<byte>, ctypes: seq<byte>) {
    predicate Valid() {
      |lcc| == 256 && |fcc| == 256 && |ctypes| == 256
    }

    /** What maketables.c builds: bytes with equal lower-case forms differ at most by flipping case. */
    ghost predicate CaseConsistent()
      requires Valid()
    {
      forall a: byte, b: byte :: lcc[a] == lcc[b] ==> a == b || a == fcc[b]
    }
  }

  /** Flipping the case of a byte keeps its lower-case form. */
  ghost predicate Flips(tab: TableSet) {
    forall c: byte :: tab.lcc[tab.fcc[c]] == tab.lcc[c]
  }

  type TableSet = t: Tables | t.Valid()
    witness Tables(seq(256, _ => 0), seq(256, _ => 0), seq(256, _ => 0))

  datatype Options = Options(caseless: bool, multiline: bool, dotall: bool, endonly: bool)

  /** A subject with everything the tests below depend on. */
  datatype Env = Env(s: seq<byte>, tab: TableSet, opt: Options, notbol: bool, noteol: bool)

  /** The six one-byte escapes and `.`; the codes are those of the opcode list. */
  datatype TypeOp = NotDigit | Digit | NotSpace | Space | NotWord | Word | Any

  /** A test on one subject byte. A class map is already inverted when the class is negated. */
  datatype Test =
    | Char(c: byte)
    | NotChar(c: byte)
    | Type(op: TypeOp)
    | Class(negated: bool, bits: seq<byte>)
  {
    predicate Valid() {
      Class? ==> |bits| == 32
    }
  }

  const CTYPE_SPACE := 0
  const CTYPE_DIGIT := 2
  const CTYPE_WORD := 4

  predicate SameByte(E: Env, a: byte, b: byte) {
    if E.opt.caseless then E.tab.lcc[a] == E.tab.lcc[b] else a == b
  }

  predicate TypeAccepts(E: Env, op: TypeOp, c: byte) {
    match op
    case NotDigit => !BitSet(E.tab.ctypes[c], CTYPE_DIGIT)
    case Digit => BitSet(E.tab.ctypes[c], CTYPE_DIGIT)
    case NotSpace => !BitSet(E.tab.ctypes[c], CTYPE_SPACE)
    case Space => BitSet(E.tab.ctypes[c], CTYPE_SPACE)
    case NotWord => !BitSet(E.tab.ctypes[c], CTYPE_WORD)
    case Word => BitSet(E.tab.ctypes[c], CTYPE_WORD)
    case Any => E.opt.dotall || c != NEWLINE
  }

  predicate Accepts(E: Env, t: Test, c: byte)
    requires t.Valid()
  {
    match t
    case Char(d) => SameByte(E, d, c)
    case NotChar(d) => !SameByte(E, d, c)
    case Type(op) => TypeAccepts(E, op, c)
    case Class(_, bits) => InMap(bits, c)
  }

  /** The byte at `i` exists and passes the test. */
  predicate Hit(E: Env, t: Test, i: nat)
    requires t.Valid()
  {
    i < |E.s| && Accepts(E, t, E.s[i])
  }

  predicate RunAt(E: Env, run: seq<byte>, i: nat) {
    (run == [] || i + |run| <= |E.s|) && forall n :: 0 <= n < |run| ==> SameByte(E, run[n], E.s[i + n])
  }

  predicate CircAt(E: Env, i: nat)
    requires i <= |E.s|
  {
    !(E.notbol && i == 0) && (i == 0 || (E.opt.multiline && E.s[i - 1] == NEWLINE))
  }

  predicate DollAt(E: Env, i: nat)
    requires i <= |E.s|
  {
    if E.opt.multiline then
      if i < |E.s| then E.s[i] == NEWLINE else !E.noteol
    else
      !E.noteol &&
      (i == |E.s| || (!E.opt.endonly && i == |E.s| - 1 && E.s[i] == NEWLINE))
  }
}
