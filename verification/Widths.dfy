/** How many bytes compiled code can take, by the counts in its items; each group is passed through once. */
module Widths {
  import opened Subject
  import opened Regex
  import opened Program

  ghost predicate Takes(n: Node, m: nat)
    decreases n
  {
    match n
    case Chars(run) => m == |run|
    case One(_) => m == 1
    case Many(_, min, max, _, _) => min <= m && (max < 0 || m <= max)
    case Bra(_, alts, _) => ChoiceTakes(alts, m)
    case Zero(g, _) => m == 0 || Takes(g, m)
    case _ => m == 0
  }

  ghost predicate CodeTakes(c: Code, m: nat)
    decreases c
  {
    if c.Empty? then m == 0 else exists i: nat :: i <= m && Takes(c.hd, i) && CodeTakes(c.tl, m - i)
  }

  ghost predicate ChoiceTakes(a: Choice, m: nat)
    decreases a
  {
    CodeTakes(a.c, m) || (a.Or? && ChoiceTakes(a.more, m))
  }

  /** It can take `m` bytes and no other number. */
  ghost predicate TakesOnly(a: Choice, m: nat) {
    forall i: nat :: ChoiceTakes(a, i) <==> i == m
  }

  /** No group that may be skipped, and no negated byte, which find_fixedlength does not know. */
  predicate Countable(n: Node)
    decreases n
  {
    match n
    case One(t) => !t.NotChar?
    case Many(t, _, _, _, _) => !t.NotChar?
    case Bra(_, alts, _) => CountableChoice(alts)
    case Zero(_, _) => false
    case _ => true
  }

  predicate CountableCode(c: Code)
    decreases c
  {
    c.Then? ==> Countable(c.hd) && CountableCode(c.tl)
  }

  predicate CountableChoice(a: Choice)
    decreases a
  {
    CountableCode(a.c) && (a.Or? ==> CountableChoice(a.more))
  }

  /** `r` is what find_fixedlength is to find: the one length that there is, or -1. */
  ghost predicate Measures(r: int, a: Choice) {
    if r >= 0 then CountableChoice(a) && TakesOnly(a, r)
    else r == -1 && !(CountableChoice(a) && exists m: nat :: TakesOnly(a, m))
  }

  lemma {:induction false} SomeWidth(n: Node) returns (m: nat)
    requires ValidNode(n)
    ensures Takes(n, m)
    decreases n
  {
    match n
    case Chars(run) => m := |run|;
    case One(_) => m := 1;
    case Many(_, min, _, _, _) => m := min;
    case Bra(_, alts, _) => m := SomeCodeWidth(alts.c);
    case Zero(g, _) => m := 0;
    case _ => m := 0;
  }

  lemma {:induction false} SomeCodeWidth(c: Code) returns (m: nat)
    requires ValidCode(c)
    ensures CodeTakes(c, m)
    decreases c
  {
    m := 0;
    if c.Then? {
      var i := SomeWidth(c.hd);
      var j := SomeCodeWidth(c.tl);
      m := i + j;
      assert i <= m && Takes(c.hd, i) && CodeTakes(c.tl, m - i);
    }
  }

  // ----- group numbers -----

  /** The code without its group numbers. */
  function Bare(n: Node): Node
    decreases n
  {
    match n
    case Number(_) => Number(0)
    case Bra(_, alts, ket) => Bra(0, BareChoice(alts), ket)
    case Zero(g, lazy) => Zero(Bare(g), lazy)
    case _ => n
  }

  function BareCode(c: Code): Code
    decreases c
  {
    if c.Empty? then Empty else Then(Bare(c.hd), BareCode(c.tl))
  }

  function BareChoice(a: Choice): Choice
    decreases a
  {
    if a.Only? then Only(BareCode(a.c)) else Or(BareCode(a.c), BareChoice(a.more))
  }
}
