/** sqlite3AffinityType: a 32-bit rolling window against a case-insensitive search for substrings. */
module TypeAffinity {
  import opened Bytes

  datatype Affinity = Numeric | Integer | Text | NoAffinity

  const U32 := 0x1_0000_0000

  /** sqlite3UpperToLower. */
  function Lower(c: byte): byte {
    if 'A' as int <= c <= 'Z' as int then c + 32 else c
  }

  function LowerAll(s: seq<byte>): (r: seq<byte>)
    ensures |r| == |s| && forall i :: 0 <= i < |r| ==> r[i] == Lower(s[i])
  {
    seq(|s|, i requires 0 <= i < |s| => Lower(s[i]))
  }

  const INT: seq<byte> := ['i' as int, 'n' as int, 't' as int]
  const CHAR: seq<byte> := ['c' as int, 'h' as int, 'a' as int, 'r' as int]
  const CLOB: seq<byte> := ['c' as int, 'l' as int, 'o' as int, 'b' as int]
  const TEXT: seq<byte> := ['t' as int, 'e' as int, 'x' as int, 't' as int]
  const BLOB: seq<byte> := ['b' as int, 'l' as int, 'o' as int, 'b' as int]

  predicate At(s: seq<byte>, w: seq<byte>, k: int) {
    0 <= k <= |s| - |w| && s[k..k + |w|] == w
  }

  ghost predicate Contains(s: seq<byte>, w: seq<byte>) {
    exists k :: At(s, w, k)
  }

  predicate EndsIn(s: seq<byte>, w: seq<byte>) {
    |w| <= |s| && s[|s| - |w|..] == w
  }

  lemma AtNext(s: seq<byte>, c: byte, w: seq<byte>, k: int)
    requires |w| > 0
    ensures At(s + [c], w, k) <==> At(s, w, k) || (k == |s| + 1 - |w| && EndsIn(s + [c], w))
  {
  }

  lemma ContainsNext(s: seq<byte>, c: byte, w: seq<byte>)
    requires |w| > 0
    ensures Contains(s + [c], w) <==> Contains(s, w) || EndsIn(s + [c], w)
  {
    hide At;
    forall k ensures At(s + [c], w, k) <==> At(s, w, k) || (k == |s| + 1 - |w| && EndsIn(s + [c], w)) {
      AtNext(s, c, w, k);
    }
    AtNext(s, c, w, |s| + 1 - |w|);
  }

  /** The value of the bytes of a word, as a big-endian number. */
  function Value(w: seq<byte>): nat {
    if w == [] then 0 else Value(w[..|w| - 1]) * 256 + w[|w| - 1] as int
  }

  /** The window after the bytes `s`. */
  function Window(s: seq<byte>): nat {
    if s == [] then 0 else Window(s[..|s| - 1]) * 256 % U32 + s[|s| - 1] as int
  }

  lemma WindowNext(s: seq<byte>, c: byte)
    ensures Window(s + [c]) == Window(s) * 256 % U32 + c as int
  {
  }

  /** The window holds the last four bytes. */
  lemma {:induction false} WindowIs(s: seq<byte>)
    ensures Window(s) < U32 && Window(s) == LastFour(s)
    decreases |s|
  {
    if s != [] {
      var t, c := s[..|s| - 1], s[|s| - 1];
      WindowIs(t);
      assert s == t + [c];
      WindowNext(t, c);
      hide Window;
      if |t| >= 4 {
        var n := |t|;
        Shifted(t[n - 4], t[n - 3] as int * 65536 + t[n - 2] as int * 256 + t[n - 1] as int);
      } else {
        Fits(LastFour(t));
      }
    }
  }

  /** The value of the last four bytes, or of as many as there are. */
  function LastFour(s: seq<byte>): nat {
    var n := |s|;
    if n == 0 then 0 else if n == 1 then s[0] else if n == 2 then s[0] as int * 256 + s[1] as int
    else if n == 3 then s[0] as int * 65536 + s[1] as int * 256 + s[2] as int
    else s[n - 4] as int * 16777216 + s[n - 3] as int * 65536 + s[n - 2] as int * 256 + s[n - 1] as int
  }

  lemma Fits(v: nat)
    requires v < 16777216
    ensures v * 256 % U32 == v * 256
  {
  }

  /** The oldest byte drops out of the window. */
  lemma Shifted(a: byte, low: nat)
    requires low < 16777216
    ensures (a as int * 16777216 + low) * 256 % U32 == low * 256
  {
  }

  lemma Four(w: seq<byte>)
    requires |w| == 4
    ensures Value(w) == ((w[0] as int * 256 + w[1] as int) * 256 + w[2] as int) * 256 + w[3] as int
  {
    assert w[..3][..2] == w[..2] && w[..2][..1] == w[..1] && w[..1][..0] == [];
    assert Value(w[..1]) == w[0] as int;
    assert Value(w[..2]) == w[0] as int * 256 + w[1] as int;
    assert Value(w[..3]) == (w[0] as int * 256 + w[1] as int) * 256 + w[2] as int;
  }

  lemma Digit(a: nat, b: byte, c: nat, d: byte)
    ensures a * 256 + b == c * 256 + d <==> a == c && b == d
  {
  }

  lemma Digits(a: byte, b: byte, c: byte, d: byte, w: seq<byte>)
    requires |w| == 4
    ensures ((a as int * 256 + b as int) * 256 + c as int) * 256 + d as int == Value(w) <==> w == [a, b, c, d]
  {
    Four(w);
    Digit((a as int * 256 + b as int) * 256 + c as int, d, (w[0] as int * 256 + w[1] as int) * 256 + w[2] as int, w[3]);
    Digit(a as int * 256 + b as int, c, w[0] as int * 256 + w[1] as int, w[2]);
    Digit(a as int, b, w[0] as int, w[1]);
    assert w == [w[0], w[1], w[2], w[3]];
  }

  /** A four-letter word without a zero byte is in the window exactly when the text ends in it. */
  lemma WordSeen(s: seq<byte>, w: seq<byte>)
    requires |w| == 4 && w[0] > 0
    ensures Window(s) == Value(w) <==> EndsIn(s, w)
  {
    hide Window, Value;
    WindowIs(s);
    Four(w);
    if |s| >= 4 {
      var n := |s|;
      Digits(s[n - 4], s[n - 3], s[n - 2], s[n - 1], w);
      assert s[n - 4..] == [s[n - 4], s[n - 3], s[n - 2], s[n - 1]];
    }
  }

  lemma IntSeen(s: seq<byte>)
    ensures Window(s) % 16777216 == Value(INT) <==> EndsIn(s, INT)
  {
    hide Window;
    WindowIs(s);
    assert INT[..2][..1] == INT[..1] && INT[..1][..0] == [];
    assert Value(INT[..1]) == 105 && Value(INT[..2]) == 105 * 256 + 110 && Value(INT) == 105 * 65536 + 110 * 256 + 116;
    if |s| >= 3 {
      var n := |s|;
      assert Window(s) % 16777216 == s[n - 3] as int * 65536 + s[n - 2] as int * 256 + s[n - 1] as int;
      assert s[n - 3..] == [s[n - 3], s[n - 2], s[n - 1]];
    }
  }

  // ----- without regard to case -----

  /** `c` is the small letter `l` or its capital. */
  predicate IsLetter(c: byte, l: byte) {
    c == l || c as int == l as int - 32
  }

  /** The letters of `w` stand in `s` at `k`, in either case. */
  predicate ReadsAt(s: seq<byte>, w: seq<byte>, k: int) {
    0 <= k <= |s| - |w| && forall i :: 0 <= i < |w| ==> IsLetter(s[k + i], w[i])
  }

  ghost predicate Mentions(s: seq<byte>, w: seq<byte>) {
    exists k :: ReadsAt(s, w, k)
  }

  predicate Small(w: seq<byte>) {
    forall i :: 0 <= i < |w| ==> 'a' as int <= w[i] <= 'z' as int
  }

  lemma LowerReads(s: seq<byte>, w: seq<byte>, k: int)
    requires Small(w)
    ensures At(LowerAll(s), w, k) <==> ReadsAt(s, w, k)
  {
    if 0 <= k <= |s| - |w| {
      var there := LowerAll(s)[k..k + |w|];
      assert forall i :: 0 <= i < |w| ==> there[i] == Lower(s[k + i]);
      assert there == w <==> forall i :: 0 <= i < |w| ==> IsLetter(s[k + i], w[i]) by {
        if there == w {
          forall i | 0 <= i < |w| ensures IsLetter(s[k + i], w[i]) { assert there[i] == w[i]; }
        }
      }
    }
  }

  /** Folding the case and searching finds what stands there in any case. */
  lemma LowerMentions(s: seq<byte>, w: seq<byte>)
    requires Small(w)
    ensures Contains(LowerAll(s), w) <==> Mentions(s, w)
  {
    forall k ensures At(LowerAll(s), w, k) <==> ReadsAt(s, w, k) { LowerReads(s, w, k); }
    if Contains(LowerAll(s), w) {
      var k :| At(LowerAll(s), w, k);
      assert ReadsAt(s, w, k);
    }
    if Mentions(s, w) {
      var k :| ReadsAt(s, w, k);
      assert At(LowerAll(s), w, k);
    }
  }

  lemma WordsFolded(s: seq<byte>)
    ensures var t := LowerAll(s);
            && (Contains(t, INT) <==> Mentions(s, INT)) && (Contains(t, CHAR) <==> Mentions(s, CHAR)) && (Contains(t, CLOB) <==> Mentions(s, CLOB))
            && (Contains(t, TEXT) <==> Mentions(s, TEXT)) && (Contains(t, BLOB) <==> Mentions(s, BLOB))
  {
    hide Contains, Mentions;
    LowerMentions(s, INT);
    LowerMentions(s, CHAR);
    LowerMentions(s, CLOB);
    LowerMentions(s, TEXT);
    LowerMentions(s, BLOB);
  }

  /** Equal, or the two cases of one ASCII letter. */
  predicate Folds(a: byte, b: byte) {
    a == b || (65 <= a <= 90 && b as int == a as int + 32) || (65 <= b <= 90 && a as int == b as int + 32)
  }

  /** Types that differ in the case of letters alone have one affinity. */
  lemma CaseIgnored(s: seq<byte>, t: seq<byte>)
    requires |s| == |t| && forall i :: 0 <= i < |s| ==> Folds(s[i], t[i])
    ensures Expected(s) == Expected(t)
  {
    hide Contains, Mentions;
    WordsFolded(s);
    WordsFolded(t);
    assert LowerAll(s) == LowerAll(t);
  }

  /** The table in the comment: entries further up take priority. */
  ghost function Expected(s: seq<byte>): Affinity {
    if Mentions(s, INT) then Integer
    else if Mentions(s, CHAR) || Mentions(s, CLOB) || Mentions(s, TEXT) then Text
    else if Mentions(s, BLOB) then NoAffinity
    else Numeric
  }

  lemma ContainsMore(s: seq<byte>, t: seq<byte>, w: seq<byte>)
    requires s <= t && Contains(s, w)
    ensures Contains(t, w)
  {
    var k :| At(s, w, k);
    assert t[k..k + |w|] == s[k..k + |w|];
    assert At(t, w, k);
  }

  method AffinityType(zType: seq<byte>) returns (aff: Affinity)
    ensures aff == Expected(zType)
  {
    hide Contains, EndsIn, Window, Value, Mentions;
    WordsFolded(zType);
    var h: nat := 0;
    aff := Numeric;
    ghost var all := LowerAll(zType);
    EmptySeen();
    var i := 0;
    while i < |zType|
      invariant 0 <= i <= |zType| && h == Window(all[..i]) && aff != Integer
      invariant !Contains(all[..i], INT)
      invariant aff == Text <==> Contains(all[..i], CHAR) || Contains(all[..i], CLOB) || Contains(all[..i], TEXT)
      invariant aff == NoAffinity <==> aff != Text && Contains(all[..i], BLOB)
    {
      h := h * 256 % U32 + Lower(zType[i]) as int;
      Seen(all[..i], all[i]);
      assert all[..i + 1] == all[..i] + [all[i]];
      i := i + 1;
      if h == 0x63686172 {
        aff := Text;
      } else if h == 0x636C6F62 {
        aff := Text;
      } else if h == 0x74657874 {
        aff := Text;
      } else if h == 0x626C6F62 && aff == Numeric {
        aff := NoAffinity;
      } else if h % 16777216 == 0x696E74 {
        aff := Integer;
        ContainsMore(all[..i], all, INT);
        return;
      }
    }
    assert all[..i] == all;
  }

  lemma EmptySeen()
    ensures Window([]) == 0 && !Contains([], INT) && !Contains([], CHAR) && !Contains([], CLOB) && !Contains([], TEXT) && !Contains([], BLOB)
  {
  }

  /** One byte further. */
  lemma Seen(s: seq<byte>, c: byte)
    ensures var t, h := s + [c], Window(s) * 256 % U32 + c as int;
            && Window(t) == h
            && (Contains(t, CHAR) <==> Contains(s, CHAR) || h == 0x63686172)
            && (Contains(t, CLOB) <==> Contains(s, CLOB) || h == 0x636C6F62)
            && (Contains(t, TEXT) <==> Contains(s, TEXT) || h == 0x74657874)
            && (Contains(t, BLOB) <==> Contains(s, BLOB) || h == 0x626C6F62)
            && (Contains(t, INT) <==> Contains(s, INT) || h % 16777216 == 0x696E74)
  {
    var t := s + [c];
    hide Contains, EndsIn, Window;
    WindowNext(s, c);
    forall w | w in [CHAR, CLOB, TEXT, BLOB]
      ensures Contains(t, w) <==> Contains(s, w) || Window(t) == Value(w)
    {
      ContainsNext(s, c, w);
      WordSeen(t, w);
    }
    ContainsNext(s, c, INT);
    IntSeen(t);
    Codes();
  }

  lemma Codes()
    ensures Value(CHAR) == 0x63686172 && Value(CLOB) == 0x636C6F62 && Value(TEXT) == 0x74657874 && Value(BLOB) == 0x626C6F62
    ensures Value(INT) == 0x696E74
  {
    Four(CHAR);
    Four(CLOB);
    Four(TEXT);
    Four(BLOB);
    assert INT[..2][..1] == INT[..1] && INT[..1][..0] == [];
    assert Value(INT[..1]) == 105 && Value(INT[..2]) == 105 * 256 + 110;
  }
}
