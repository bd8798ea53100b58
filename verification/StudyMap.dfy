/** Which bytes are in the map that pcre_study makes, and when it makes one, in terms of leading items. */
module StudyMap {
  import opened Bytes
  import opened Subject
  import opened Program
  import opened Ordered
  import opened Study

  /** The items that a match can come to before anything is consumed, groups included. */
  function LeadNode(n: Node): set<Node>
    decreases n
  {
    match n
    case Bra(_, alts, _) => {n} + LeadChoice(alts)
    case Zero(g, _) => LeadNode(g)
    case _ => {n}
  }

  function LeadCode(c: Code): set<Node>
    decreases c
  {
    if c.Empty? then {} else LeadNode(c.hd) + if Nullable(c.hd) then LeadCode(c.tl) else {}
  }

  function LeadChoice(a: Choice): set<Node>
    decreases a
  {
    LeadCode(a.c) + if a.Or? then LeadChoice(a.more) else {}
  }

  /** A test that study has a map for. */
  predicate Mapped(t: Test) {
    !t.NotChar? && t != Type(Any)
  }

  /** An item that study can deal with: a group must not match the empty string. */
  predicate Studied(n: Node) {
    match n
    case One(t) => Mapped(t)
    case Many(t, _, _, _, _) => Mapped(t)
    case AtStart => false
    case AtEnd => false
    case Bra(_, alts, _) => !NullableChoice(alts)
    case _ => true
  }

  /** An item that is not a group is its own only leading item. */
  lemma SingleKnown(n: Node)
    requires !n.Bra? && !n.Zero?
    ensures (forall m :: m in LeadNode(n) ==> Studied(m)) <==> Studied(n)
  {
    assert LeadNode(n) == {n} && n in LeadNode(n);
  }

  lemma SingleStep(n: Node)
    requires !n.Bra? && !n.Zero?
    ensures !NodeStep(n).GiveUp? <==> Studied(n)
    ensures !NodeStep(n).GiveUp? ==> (NodeStep(n).GoOn? <==> Nullable(n))
  {
  }

  lemma {:induction false} NodeKnown(n: Node)
    requires ValidNode(n)
    ensures !NodeStep(n).GiveUp? <==> forall m :: m in LeadNode(n) ==> Studied(m)
    ensures !NodeStep(n).GiveUp? ==> (NodeStep(n).GoOn? <==> Nullable(n))
    decreases n
  {
    if n.Bra? {
      ChoiceKnown(n.alts);
      assert n in LeadNode(n);
    } else if n.Zero? {
      assert ValidNode(n.g);
      NodeKnown(n.g);
    } else {
      hide Studied, Nullable, NodeStep;
      SingleKnown(n);
      SingleStep(n);
    }
  }

  lemma {:induction false} CodeKnown(c: Code)
    requires ValidCode(c)
    ensures KnownCode(c) <==> !NullableCode(c) && forall m :: m in LeadCode(c) ==> Studied(m)
    decreases c
  {
    if c.Then? {
      NodeKnown(c.hd);
      CodeKnown(c.tl);
    }
  }

  /** A map is made exactly if no alternative can be empty and study can deal with all leading items. */
  lemma {:induction false} ChoiceKnown(a: Choice)
    requires ValidChoice(a)
    ensures KnownChoice(a) <==> !NullableChoice(a) && forall m :: m in LeadChoice(a) ==> Studied(m)
    decreases a
  {
    CodeKnown(a.c);
    if a.Or? { ChoiceKnown(a.more); }
  }

  /** The item takes `x` as its first byte, by its bit map: VT is in the map of `\s` and not in that of `\S`. */
  predicate Marks(E: Env, n: Node, x: byte) {
    match n
    case Chars(run) => run != [] && SameByte(E, run[0], x)
    case One(t) => MarksTest(E, t, x)
    case Many(t, _, _, _, _) => MarksTest(E, t, x)
    case _ => false
  }

  predicate MarksTest(E: Env, t: Test, x: byte) {
    t.Valid() && if x == VT && t == Type(Space) then true else if x == VT && t == Type(NotSpace) then false else Accepts(E, t, x)
  }

  lemma TestMarked(E: Env, maps: Maps, t: Test, x: byte)
    requires Agree(E.tab, maps) && Flips(E.tab) && t.Valid() && Mapped(t)
    ensures TestBits(E.tab, maps, E.opt.caseless, t, x) <==> MarksTest(E, t, x)
  {
    if t.Char? { CharMarked(E, maps, t.c, x); }
  }

  lemma CharMarked(E: Env, maps: Maps, c: byte, x: byte)
    requires Agree(E.tab, maps) && Flips(E.tab)
    ensures CaseBits(E.tab, E.opt.caseless, c, x) <==> SameByte(E, c, x)
  {
    if SameByte(E, c, x) { CaseInBits(E, maps, c, x); }
  }

  lemma SingleMarked(E: Env, n: Node, x: byte)
    requires !n.Bra? && !n.Zero?
    ensures (exists m :: m in LeadNode(n) && Marks(E, m, x)) <==> Marks(E, n, x)
  {
    assert LeadNode(n) == {n} && n in LeadNode(n);
  }

  lemma {:induction false} NodeMarked(E: Env, maps: Maps, n: Node, x: byte)
    requires Agree(E.tab, maps) && Flips(E.tab) && ValidNode(n) && !NodeStep(n).GiveUp?
    ensures NodeBits(E.tab, maps, E.opt.caseless, n, x) <==> exists m :: m in LeadNode(n) && Marks(E, m, x)
    decreases n
  {
    match n
    case Bra(_, alts, _) => ChoiceMarked(E, maps, alts, x);
    case Zero(g, _) =>
      assert ValidNode(g);
      NodeMarked(E, maps, g, x);
    case Chars(run) =>
      CharMarked(E, maps, run[0], x);
      SingleMarked(E, n, x);
    case One(t) =>
      TestMarked(E, maps, t, x);
      SingleMarked(E, n, x);
    case Many(t, _, _, _, _) =>
      TestMarked(E, maps, t, x);
      SingleMarked(E, n, x);
    case Number(_) => SingleMarked(E, n, x);
  }

  lemma {:induction false} CodeMarked(E: Env, maps: Maps, c: Code, x: byte)
    requires Agree(E.tab, maps) && Flips(E.tab) && ValidCode(c) && KnownCode(c)
    ensures CodeBits(E.tab, maps, E.opt.caseless, c, x) <==> exists m :: m in LeadCode(c) && Marks(E, m, x)
    decreases c
  {
    NodeMarked(E, maps, c.hd, x);
    NodeKnown(c.hd);
    if NodeStep(c.hd).GoOn? { CodeMarked(E, maps, c.tl, x); }
  }

  /** A byte is in the map if and only if a leading item takes it, but for VT and `\s`, `\S`. */
  lemma {:induction false} ChoiceMarked(E: Env, maps: Maps, a: Choice, x: byte)
    requires Agree(E.tab, maps) && Flips(E.tab) && ValidChoice(a) && KnownChoice(a)
    ensures ChoiceBits(E.tab, maps, E.opt.caseless, a, x) <==> exists m :: m in LeadChoice(a) && Marks(E, m, x)
    decreases a
  {
    CodeMarked(E, maps, a.c, x);
    if a.Or? { ChoiceMarked(E, maps, a.more, x); }
  }
}
