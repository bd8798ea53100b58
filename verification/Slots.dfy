/**
 * The offset vector: pairs (2n, 2n+1) for finished captures, and below its end one working slot
 * per capture for the start of a group that is still open.
 */
module Slots {
  import opened Regex
  import opened Program
  import opened Machine

  // ----- capture numbers in a program -----

  ghost function NodeCaps(n: Node): set<nat> {
    match n
    case Bra(cap, alts, _) => (if cap > 0 then {cap} else {}) + ChoiceCaps(alts)
    case Zero(g, _) => NodeCaps(g)
    case _ => {}
  }

  ghost function CodeCaps(c: Code): set<nat> {
    if c.Then? then NodeCaps(c.hd) + CodeCaps(c.tl) else {}
  }

  ghost function ChoiceCaps(a: Choice): set<nat> {
    CodeCaps(a.c) + if a.Or? then ChoiceCaps(a.more) else {}
  }

  /** No group contains another of its own number. */
  ghost predicate Unnested(n: Node) {
    match n
    case Bra(cap, alts, _) => cap !in ChoiceCaps(alts) && UnnestedChoice(alts)
    case Zero(g, _) => Unnested(g)
    case _ => true
  }

  ghost predicate UnnestedCode(c: Code) {
    c.Then? ==> Unnested(c.hd) && UnnestedCode(c.tl)
  }

  ghost predicate UnnestedChoice(a: Choice) {
    UnnestedCode(a.c) && (a.Or? ==> UnnestedChoice(a.more))
  }

  /** The numbers of the groups that are open in `k`. */
  ghost function Open(k: Todo): set<nat> {
    if k.In? && k.g.Bra? then (if k.g.cap > 0 then {k.g.cap} else {}) + Open(k.up) else {}
  }

  ghost predicate Upto(numbers: set<nat>, m: nat) {
    forall n :: n in numbers ==> n <= m
  }

  /** Nothing still to be entered has the number of an open group, and no number is more than `groups`. */
  ghost predicate Clean(k: Todo, groups: nat) {
    UnnestedCode(k.rest) && CodeCaps(k.rest) !! Open(k) && Upto(CodeCaps(k.rest), groups) &&
    (k.In? ==>
       k.g.Bra? && Unnested(k.g) && NodeCaps(k.g) !! Open(k.up) && Upto(NodeCaps(k.g), groups) && Clean(k.up, groups))
  }

  lemma CleanEnter(a: Choice, g: Node, start: nat, k: Todo, groups: nat)
    requires Clean(k, groups) && g.Bra? && Unnested(g) && NodeCaps(g) !! Open(k) && Upto(NodeCaps(g), groups)
    requires UnnestedChoice(a) && ChoiceCaps(a) <= ChoiceCaps(g.alts)
    ensures Clean(Enter(a, g, start, k), groups)
  {
  }

  lemma CleanPush(g: Node, k: Todo, groups: nat)
    requires Clean(k, groups) && Unnested(g) && NodeCaps(g) !! Open(k) && Upto(NodeCaps(g), groups)
    ensures Clean(Push(g, k), groups)
  {
  }

  lemma CleanCap(k: Todo, groups: nat)
    requires Clean(k, groups) && k.In?
    ensures k.g.Bra? && k.g.cap <= groups
  {
  }

  // ----- the vector -----

  /** `v` may differ from `w` only in the pairs of the groups in `open`. */
  ghost predicate Same(v: seq<int>, w: seq<int>, open: set<nat>, room: nat) {
    |v| == |w| && forall i :: 0 <= i < |v| ==> v[i] == w[i] || (i < 2 * room && i / 2 in open)
  }

  /** What slot `i` of the pairs should hold: a captured end point, or what was there at first. */
  ghost function Slot(base: seq<int>, caps: map<nat, (nat, nat)>, i: nat): int
    requires i < |base|
  {
    if i / 2 in caps then if i % 2 == 0 then caps[i / 2].0 else caps[i / 2].1 else base[i]
  }

  /** The pairs of all groups that are not open hold the captures. */
  ghost predicate Pairs(v: seq<int>, base: seq<int>, open: set<nat>, caps: map<nat, (nat, nat)>, room: nat) {
    |v| == |base| && 3 * room <= |v| &&
    forall i :: 0 <= i < 2 * room && i / 2 !in open ==> v[i] == Slot(base, caps, i)
  }

  /** The working slots hold the starts of the open groups. */
  ghost predicate Starts(v: seq<int>, k: Todo, room: nat) {
    k.In? ==> 3 * room <= |v| && k.g.Bra? && (0 < k.g.cap < room ==> v[3 * room - k.g.cap] == k.start) && Starts(v, k.up, room)
  }

  ghost predicate Sync(v: seq<int>, base: seq<int>, k: Todo, st: St, room: nat) {
    Pairs(v, base, Open(k), st.caps, room) && Starts(v, k, room) && 0 !in st.caps
  }

  /** `offset_top`: one past the highest pair in use, and at least 2. */
  ghost predicate OffsetTop(top: nat, caps: map<nat, (nat, nat)>, room: nat) {
    top >= 2 && top % 2 == 0 &&
    (forall n :: n in caps && n < room ==> 2 * n < top) &&
    (top > 2 ==> top / 2 - 1 in caps && top / 2 - 1 < room)
  }

  lemma {:induction false} StartsKept(v: seq<int>, w: seq<int>, k: Todo, room: nat, slot: int)
    requires Starts(v, k, room) && |w| == |v|
    requires forall i :: 2 * room <= i < |v| ==> w[i] == v[i] || i == slot
    requires forall n :: n in Open(k) && n < room ==> 3 * room - n != slot
    ensures Starts(w, k, room)
    decreases k
  {
    if k.In? {
      assert k.g.cap > 0 ==> k.g.cap in Open(k);
      assert forall n :: n in Open(k.up) ==> n in Open(k);
      StartsKept(v, w, k.up, room, slot);
    }
  }

  lemma {:induction false} OpenPositive(k: Todo)
    ensures 0 !in Open(k)
  {
    if k.In? {
      OpenPositive(k.up);
    }
  }

  /** A failed attempt leaves `k` in step with the vector. */
  lemma SyncBack(v: seq<int>, w: seq<int>, base: seq<int>, k: Todo, st: St, room: nat)
    requires Sync(v, base, k, st, room) && Same(w, v, Open(k), room)
    ensures Sync(w, base, k, st, room)
  {
    StartsKept(v, w, k, room, -1);
  }

  /** Opening group `g`: its working slot is set, its pair is free to change. */
  lemma SyncEnter(v: seq<int>, w: seq<int>, base: seq<int>, a: Choice, g: Node, k: Todo, st: St, room: nat)
    requires Sync(v, base, k, st, room) && g.Bra? && g.cap !in Open(k)
    requires w == if 0 < g.cap < room then v[3 * room - g.cap := st.pos] else v
    ensures Sync(w, base, Enter(a, g, st.pos, k), st, room)
    ensures Open(Enter(a, g, st.pos, k)) == Open(k) + if g.cap > 0 then {g.cap} else {}
  {
    StartsKept(v, w, k, room, 3 * room - g.cap);
  }

  /** Closing the innermost group records its span. */
  lemma SyncClose(v: seq<int>, w: seq<int>, base: seq<int>, k: Todo, st: St, room: nat)
    requires Sync(v, base, k, st, room) && k.In? && k.g.Bra? && k.g.cap !in Open(k.up)
    requires var n := k.g.cap;
             w == if 0 < n < room then v[2 * n := v[3 * room - n]][2 * n + 1 := st.pos] else v
    ensures Sync(w, base, k.up, Close(k.g.cap, k.start, st), room)
    ensures Same(w, v, Open(k), room)
  {
    var n := k.g.cap;
    StartsKept(v, w, k.up, room, -1);
    var st1 := Close(n, k.start, st);
    forall i | 0 <= i < 2 * room && i / 2 !in Open(k.up)
      ensures w[i] == Slot(base, st1.caps, i)
    {
      if i / 2 == n && n > 0 {
        assert i == 2 * n || i == 2 * n + 1;
      }
    }
  }

  lemma TopClose(top: nat, cap: nat, start: nat, st: St, room: nat)
    requires OffsetTop(top, st.caps, room) && 0 !in st.caps
    ensures OffsetTop(if 0 < cap < room && top <= 2 * cap then 2 * cap + 2 else top, Close(cap, start, st).caps, room)
  {
  }
}
