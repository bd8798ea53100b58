/**
 * UTF-8 as in section 2 of RFC 2279, up to six bytes: the encoder that fills its buffer backwards,
 * the decoders, and stepping back to the start of a character.
 */
module Utf8 {
  import opened Wrappers
  import opened Bytes

  /** Breakpoints, indicator bits and data masks by the number of additional bytes. */
  const TABLE1: seq<nat> := [0x7F, 0x7FF, 0xFFFF, 0x1F_FFFF, 0x3FF_FFFF, 0x7FFF_FFFF]
  const TABLE2: seq<nat> := [0, 0xC0, 0xE0, 0xF0, 0xF8, 0xFC]
  const TABLE3: seq<nat> := [0xFF, 0x1F, 0x0F, 0x07, 0x03, 0x01]
  const MAX_VALUE: nat := 0x7FFF_FFFF

  /** utf8_table4: additional bytes by the low six bits of the first byte. */
  function Table4(i: nat): nat
    requires i < 64
  {
    if i < 32 then 1 else if i < 48 then 2 else if i < 56 then 3 else if i < 60 then 4 else 5
  }

  /** The data bits of a first byte: `c & utf8_table3[k]`. */
  function Payload(c: byte, k: nat): (r: nat)
    requires k <= 5
    ensures r <= TABLE3[k]
  {
    c % (TABLE3[k] + 1)
  }

  function Pow64(k: nat): (p: nat)
    ensures p > 0
  {
    if k == 0 then 1 else 64 * Pow64(k - 1)
  }

  // ----- the encoding -----

  /** How many additional bytes a value needs. */
  function Extra(v: nat): (k: nat)
    requires v <= MAX_VALUE
    ensures k <= 5 && v <= TABLE1[k] && (k > 0 ==> TABLE1[k - 1] < v)
  {
    if v <= 0x7F then 0 else if v <= 0x7FF then 1 else if v <= 0xFFFF then 2 else if v <= 0x1F_FFFF then 3 else if v <= 0x3FF_FFFF then 4 else 5
  }

  /** The low `6 * k` bits of `v` in `k` continuation bytes. */
  function Tail(v: nat, k: nat): (t: seq<byte>)
    ensures |t| == k && forall i :: 0 <= i < k ==> 0x80 <= t[i] < 0xC0
    decreases k
  {
    if k == 0 then [] else Tail(v / 64, k - 1) + [0x80 + v % 64]
  }

  /** `v >> 6 * k`. */
  function High(v: nat, k: nat): nat
    decreases k
  {
    if k == 0 then v else High(v / 64, k - 1)
  }

  lemma HighFits(v: nat)
    requires v <= MAX_VALUE
    ensures var k := Extra(v); if k == 0 then v < 0x80 else High(v, k) <= TABLE3[k]
    ensures var k := Extra(v); k > 1 && High(v, k) == 0 ==> High(v, k - 1) >= 64 || v > TABLE1[k - 1]
  {
  }

  function Encode(v: nat): (e: seq<byte>)
    requires v <= MAX_VALUE
  {
    HighFits(v);
    var k := Extra(v);
    [TABLE2[k] + High(v, k)] + Tail(v, k)
  }

  lemma EncodeText(v: nat)
    requires v <= MAX_VALUE
    ensures var k := Extra(v); TABLE2[k] + High(v, k) < 256 && Encode(v) == [TABLE2[k] + High(v, k)] + Tail(v, k)
  {
    HighFits(v);
  }

  function EncodeAll(vs: seq<nat>): seq<byte>
    requires forall i :: 0 <= i < |vs| ==> vs[i] <= MAX_VALUE
  {
    if vs == [] then [] else Encode(vs[0]) + EncodeAll(vs[1..])
  }

  // ----- ord2utf8 -----

  lemma {:induction false} TailSplit(v: nat, k: nat, j: nat)
    requires j <= k
    ensures Tail(v, k) == Tail(High(v, j), k - j) + Tail(v, j)
    decreases j
  {
    if j > 0 {
      TailSplit(v / 64, k - 1, j - 1);
      assert Tail(High(v / 64, j - 1), k - j) + Tail(v / 64, j - 1) + [0x80 + v % 64] ==
             Tail(High(v / 64, j - 1), k - j) + (Tail(v / 64, j - 1) + [0x80 + v % 64]);
    }
  }

  lemma {:induction false} HighNext(v: nat, j: nat)
    ensures High(v, j + 1) == High(v, j) / 64
    decreases j
  {
    if j > 0 { HighNext(v / 64, j - 1); }
  }

  lemma {:induction false} TailNext(v: nat, j: nat)
    ensures Tail(v, j + 1) == [0x80 + High(v, j) % 64] + Tail(v, j)
  {
    TailSplit(v, j + 1, j);
    assert Tail(High(v, j) / 64, 0) == [];
  }

  /** Puts the encoding of a value at `at`, last byte first. */
  method Ord2Utf8(value: nat, buffer: array<byte>, at: nat) returns (n: nat)
    requires value <= MAX_VALUE && at + |Encode(value)| <= buffer.Length
    modifies buffer
    ensures n == |Encode(value)| && buffer[..at] == old(buffer[..at]) && buffer[at..at + n] == Encode(value)
    ensures buffer[at + n..] == old(buffer[at + n..])
  {
    hide Encode, High, Tail;
    var i := 0;
    while value > TABLE1[i]
      invariant 0 <= i <= 5 && (i > 0 ==> value > TABLE1[i - 1])
      decreases 5 - i
    {
      i := i + 1;
    }
    assert i == Extra(value);
    EncodeText(value);
    var lead := FillTail(value, buffer, at, i);
    ghost var tail := buffer[at + 1..at + 1 + i];
    buffer[at] := TABLE2[i] + lead;
    n := i + 1;
    assert buffer[at + 1..at + n] == tail;
    assert buffer[at..at + n] == [buffer[at]] + buffer[at + 1..at + n];
  }

  /** The `i` continuation bytes after `at`, last byte first; what is left of the value goes in front. */
  method FillTail(value: nat, buffer: array<byte>, at: nat, i: nat) returns (cvalue: nat)
    requires at + 1 + i <= buffer.Length
    modifies buffer
    ensures cvalue == High(value, i) && buffer[at + 1..at + 1 + i] == Tail(value, i)
    ensures buffer[..at] == old(buffer[..at]) && buffer[at + 1 + i..] == old(buffer[at + 1 + i..])
  {
    hide Tail, High;
    TailNone(value);
    var p, j := at + i, i;
    cvalue := value;
    while j > 0
      invariant 0 <= j <= i && p == at + j && cvalue == High(value, i - j)
      invariant buffer[..at] == old(buffer[..at]) && buffer[at + 1 + i..] == old(buffer[at + 1 + i..])
      invariant buffer[at + j + 1..at + i + 1] == Tail(value, i - j)
    {
      TailNext(value, i - j);
      HighNext(value, i - j);
      ghost var done := buffer[at + j + 1..at + i + 1];
      buffer[p] := 0x80 + cvalue % 64;
      assert buffer[at + j + 1..at + i + 1] == done;
      assert buffer[at + j..at + i + 1] == [buffer[at + j]] + buffer[at + j + 1..at + i + 1];
      p := p - 1;
      cvalue := cvalue / 64;
      j := j - 1;
    }
  }

  lemma TailNone(v: nat)
    ensures Tail(v, 0) == [] && High(v, 0) == v
  {
  }

  // ----- decoding -----

  /** The bits that continuation bytes carry. */
  function Bits(t: seq<byte>): nat {
    if t == [] then 0 else Bits(t[..|t| - 1]) * 64 + t[|t| - 1] % 64
  }

  lemma {:induction false} BitsOfTail(v: nat, k: nat)
    ensures High(v, k) * Pow64(k) + Bits(Tail(v, k)) == v
    decreases k
  {
    if k > 0 {
      BitsOfTail(v / 64, k - 1);
      var t := Tail(v / 64, k - 1);
      assert (t + [0x80 + v % 64])[..k - 1] == t;
      Times64(High(v / 64, k - 1), Pow64(k - 1), Bits(t), v);
    }
  }

  lemma Times64(h: nat, p: nat, b: nat, v: nat)
    requires h * p + b == v / 64
    ensures h * (64 * p) + (b * 64 + v % 64) == v
  {
  }

  /** The character at `at`, and how many bytes it takes; a stray continuation byte stands for itself. */
  function DecodeAt(s: seq<byte>, at: nat): (r: (nat, nat))
    requires at < |s|
    requires s[at] >= 0xC0 ==> at + 1 + Table4(s[at] % 64) <= |s|
  {
    var c := s[at];
    if c < 0xC0 then (c, 1) else
    var k := Table4(c % 64);
    (Payload(c, k) * Pow64(k) + Bits(s[at + 1..at + 1 + k]), k + 1)
  }

  lemma LeadOf(k: nat, h: nat)
    requires 1 <= k <= 5 && h <= TABLE3[k]
    ensures var c := TABLE2[k] + h; 0xC0 <= c < 0x100 && Table4(c % 64) == k && Payload(c, k) == h
  {
  }

  /** Decoding inverts the encoding, wherever it stands. */
  lemma DecodeEncode(pre: seq<byte>, v: nat, post: seq<byte>)
    requires v <= MAX_VALUE
    ensures var s, at := pre + Encode(v) + post, |pre|;
            && at < |s| && (s[at] >= 0xC0 ==> at + 1 + Table4(s[at] % 64) <= |s|)
            && DecodeAt(s, at) == (v, |Encode(v)|)
  {
    hide Encode, Extra, High, Tail, Pow64, Bits;
    var s, at, e := pre + Encode(v) + post, |pre|, Encode(v);
    EncodeIs(v);
    var k := |e| - 1;
    assert s[at] == e[0];
    if k > 0 {
      assert s[at + 1..at + 1 + k] == e[1..];
    }
  }

  /** The bytes of an encoding, as the decoder reads them. */
  lemma EncodeIs(v: nat)
    requires v <= MAX_VALUE
    ensures var e, k := Encode(v), |Encode(v)| - 1;
            && 0 <= k <= 5
            && (k == 0 ==> e == [v] && v < 0x80)
            && (k > 0 ==> 0xC0 <= e[0] && Table4(e[0] % 64) == k && Payload(e[0], k) * Pow64(k) + Bits(e[1..]) == v)
  {
    hide Pow64, Bits, Payload, Table4;
    var k, e := Extra(v), Encode(v);
    HighFits(v);
    if k > 0 {
      hide High, Extra, Tail;
      LeadOf(k, High(v, k));
      BitsOfTail(v, k);
      assert e[1..] == Tail(v, k);
    }
  }

  /** GETCHARINC. */
  method GetCharInc(s: seq<byte>, at: nat) returns (c: nat, next: nat)
    requires at < |s| && (s[at] >= 0xC0 ==> at + 1 + Table4(s[at] % 64) <= |s|)
    ensures (c, next - at) == DecodeAt(s, at) && next <= |s|
  {
    hide Payload, Pow64, Bits;
    c, next := s[at], at + 1;
    BitsNone(s, next);
    if c >= 0xC0 {
      var gcaa := Table4(c % 64);
      ghost var k, lead := gcaa, Payload(c, gcaa);
      c := Payload(c, gcaa) * Pow64(gcaa);
      while gcaa > 0
        invariant 0 <= gcaa <= k && next == at + 1 + (k - gcaa)
        invariant c == lead * Pow64(k) + Bits(s[at + 1..next]) * Pow64(gcaa)
      {
        BitsNext(s, at + 1, next, gcaa);
        c := c + s[next] % 64 * Pow64(gcaa - 1);
        next := next + 1;
        gcaa := gcaa - 1;
      }
    }
  }

  lemma BitsNone(s: seq<byte>, at: nat)
    requires at <= |s|
    ensures Bits(s[at..at]) == 0 && Pow64(0) == 1
  {
  }

  lemma BitsNext(s: seq<byte>, from: nat, next: nat, g: nat)
    requires from <= next < |s| && g > 0
    ensures Bits(s[from..next + 1]) * Pow64(g - 1) == Bits(s[from..next]) * Pow64(g) + s[next] % 64 * Pow64(g - 1)
  {
    var t := s[from..next + 1];
    assert t[..|t| - 1] == s[from..next];
    var b, p := Bits(s[from..next]), Pow64(g - 1);
    assert (b * 64 + s[next] % 64) * p == b * (64 * p) + s[next] % 64 * p;
  }

  // ----- sequences of characters -----

  lemma EncodeAllStep(vs: seq<nat>)
    requires (forall i :: 0 <= i < |vs| ==> vs[i] <= MAX_VALUE) && vs != []
    ensures EncodeAll(vs) == Encode(vs[0]) + EncodeAll(vs[1..])
  {
  }

  lemma {:induction false} EncodeAllSplit(vs: seq<nat>, n: nat)
    requires (forall i :: 0 <= i < |vs| ==> vs[i] <= MAX_VALUE) && n < |vs|
    ensures EncodeAll(vs) == EncodeAll(vs[..n]) + (Encode(vs[n]) + EncodeAll(vs[n + 1..]))
    decreases n
  {
    hide Encode, EncodeAll;
    EncodeAllStep(vs);
    if n == 0 {
      assert vs[..0] == [];
      EncodeNone();
    } else {
      var tl, front := vs[1..], vs[..n];
      EncodeAllSplit(tl, n - 1);
      EncodeAllStep(front);
      assert tl[..n - 1] == front[1..] && front[0] == vs[0] && tl[n..] == vs[n + 1..] && tl[n - 1] == vs[n];
      Assoc(Encode(vs[0]), EncodeAll(front[1..]), Encode(vs[n]) + EncodeAll(vs[n + 1..]));
    }
  }

  lemma EncodeNone()
    ensures EncodeAll([]) == []
  {
  }

  /** Decoding what was encoded gives back every character, each one after the bytes of those before it. */
  lemma CharacterAt(vs: seq<nat>, n: nat)
    requires (forall i :: 0 <= i < |vs| ==> vs[i] <= MAX_VALUE) && n < |vs|
    ensures var s, at := EncodeAll(vs), |EncodeAll(vs[..n])|;
            && at < |s| && (s[at] >= 0xC0 ==> at + 1 + Table4(s[at] % 64) <= |s|)
            && DecodeAt(s, at) == (vs[n], |Encode(vs[n])|)
            && at + |Encode(vs[n])| == |EncodeAll(vs[..n + 1])|
  {
    hide Encode, EncodeAll, DecodeAt;
    EncodeAllSplit(vs, n);
    Assoc(EncodeAll(vs[..n]), Encode(vs[n]), EncodeAll(vs[n + 1..]));
    DecodeEncode(EncodeAll(vs[..n]), vs[n], EncodeAll(vs[n + 1..]));
    EncodeAllSplit(vs[..n + 1], n);
    assert vs[..n + 1][..n] == vs[..n] && vs[..n + 1][n + 1..] == [];
    EncodeNone();
  }

  predicate Continuation(c: byte) {
    0x80 <= c < 0xC0
  }

  /** BACKCHAR: back to the nearest byte that does not continue a character. */
  method BackChar(s: seq<byte>, p: nat) returns (q: nat)
    requires p < |s| && exists i :: 0 <= i <= p && !Continuation(s[i])
    ensures q <= p && !Continuation(s[q]) && forall i :: q < i <= p ==> Continuation(s[i])
  {
    q := p;
    while Continuation(s[q])
      invariant 0 <= q <= p && (exists i :: 0 <= i <= q && !Continuation(s[i]))
      invariant forall i :: q < i <= p ==> Continuation(s[i])
      decreases q
    {
      q := q - 1;
    }
  }

  /** From just before a boundary the start of the preceding character is the place BACKCHAR finds. */
  lemma BackToStart(vs: seq<nat>, n: nat, q: nat)
    requires (forall i :: 0 <= i < |vs| ==> vs[i] <= MAX_VALUE) && n < |vs|
    requires var s, p := EncodeAll(vs), |EncodeAll(vs[..n + 1])| - 1;
             q <= p < |s| && !Continuation(s[q]) && forall i :: q < i <= p ==> Continuation(s[i])
    ensures q == |EncodeAll(vs[..n])|
  {
    hide Encode, EncodeAll, DecodeAt;
    CharacterAt(vs, n);
    EncodeAllSplit(vs, n);
    EncodeIs(vs[n]);
    var s, at, e := EncodeAll(vs), |EncodeAll(vs[..n])|, Encode(vs[n]);
    assert forall i :: 0 <= i < |e| ==> s[at + i] == e[i];
    assert !Continuation(s[at]);
    Continued(vs[n]);
    forall i | at < i < at + |e| ensures Continuation(s[i]) { assert s[i] == s[at + (i - at)] == e[i - at]; }
  }

  lemma Continued(v: nat)
    requires v <= MAX_VALUE
    ensures forall i :: 1 <= i < |Encode(v)| ==> Continuation(Encode(v)[i])
  {
  }

  // ----- utf82ord -----

  lemma {:induction false} BitsSmall(t: seq<byte>)
    ensures Bits(t) < Pow64(|t|)
    decreases |t|
  {
    if t != [] { BitsSmall(t[..|t| - 1]); }
  }

  /** Continuation bytes are the tail of the value they spell. */
  lemma {:induction false} TailOfBits(h: nat, t: seq<byte>)
    requires forall i :: 0 <= i < |t| ==> Continuation(t[i])
    ensures var v := h * Pow64(|t|) + Bits(t); High(v, |t|) == h && Tail(v, |t|) == t
    decreases |t|
  {
    hide Pow64, Bits, High, Tail;
    if t == [] {
      NoBits(h);
    } else {
      var front, c := t[..|t| - 1], t[|t| - 1];
      TailOfBits(h, front);
      BitsPush(h, front, c);
      TailPush(h * Pow64(|front|) + Bits(front), c, |front|);
      assert t == front + [c];
    }
  }

  lemma NoBits(h: nat)
    ensures h * Pow64(0) + Bits([]) == h && High(h, 0) == h && Tail(h, 0) == []
  {
  }

  lemma BitsPush(h: nat, front: seq<byte>, c: byte)
    ensures h * Pow64(|front| + 1) + Bits(front + [c]) == 64 * (h * Pow64(|front|) + Bits(front)) + c % 64
  {
    assert (front + [c])[..|front|] == front;
    Factor(h, Pow64(|front|));
  }

  lemma Factor(h: nat, p: nat)
    ensures h * (64 * p) == 64 * (h * p)
  {
  }

  lemma TailPush(u: nat, c: byte, k: nat)
    requires Continuation(c)
    ensures High(64 * u + c % 64, k + 1) == High(u, k) && Tail(64 * u + c % 64, k + 1) == Tail(u, k) + [c]
  {
  }

  /** Additional bytes by the number of leading ones of the first byte: -1 for ASCII, 0 and 6 for bytes that start nothing. */
  function Ones(c: byte): int {
    if c < 0x80 then -1 else if c < 0xC0 then 0 else if c < 0xE0 then 1 else if c < 0xF0 then 2
    else if c < 0xF8 then 3 else if c < 0xFC then 4 else if c < 0xFE then 5 else 6
  }

  lemma LeadIs(c: byte)
    requires 1 <= Ones(c) <= 5
    ensures var k := Ones(c); Table4(c % 64) == k && c as int == TABLE2[k] + Payload(c, k)
  {
  }

  /** What is spelt with a given number of bytes is an encoding if and only if no shorter spelling exists. */
  lemma Shortest(c: byte, t: seq<byte>)
    requires 1 <= Ones(c) <= 5 && |t| == Ones(c) && forall i :: 0 <= i < |t| ==> Continuation(t[i])
    ensures var v := Payload(c, |t|) * Pow64(|t|) + Bits(t);
            && v <= MAX_VALUE && Extra(v) <= |t| && (Extra(v) == |t| <==> Encode(v) == [c] + t)
  {
    hide Encode, High, Tail, Bits, Pow64, Table4, Payload, Extra;
    var k, c1 := |t|, Payload(c, |t|);
    LeadIs(c);
    TailOfBits(c1, t);
    BitsSmall(t);
    Bound(c1, k, Bits(t));
    Assembled(c1 * Pow64(k) + Bits(t), k, c1, t);
  }

  lemma Assembled(v: nat, k: nat, h: nat, t: seq<byte>)
    requires v <= MAX_VALUE && k <= 5 && High(v, k) == h && Tail(v, k) == t
    ensures Extra(v) == k ==> TABLE2[k] + h < 256 && Encode(v) == [TABLE2[k] + h] + t
    ensures |Encode(v)| == Extra(v) + 1
  {
    hide High, Tail;
    EncodeText(v);
  }

  lemma Bound(h: nat, k: nat, b: nat)
    requires 1 <= k <= 5 && h <= TABLE3[k] && b < Pow64(k)
    ensures h * Pow64(k) + b <= TABLE1[k] && Extra(h * Pow64(k) + b) <= k
  {
    hide Extra, Pow64;
    PowIs(k);
    Below(h, TABLE3[k], Pow64(k), b);
    AtMost(h * Pow64(k) + b, k);
  }

  lemma PowIs(k: nat)
    requires 1 <= k <= 5
    ensures (TABLE3[k] + 1) * Pow64(k) == TABLE1[k] + 1
  {
    assert Pow64(k) == [1, 64, 0x1000, 0x4_0000, 0x100_0000, 0x4000_0000][k];
  }

  lemma Below(h: nat, m: nat, p: nat, b: nat)
    requires h <= m && b < p
    ensures h * p + b < (m + 1) * p
  {
    assert (m - h) * p >= 0;
  }

  lemma AtMost(v: nat, k: nat)
    requires k <= 5 && v <= TABLE1[k]
    ensures Extra(v) <= k
  {
  }

  /** The first byte of the buffer tells the length of `w`'s encoding, and the rest spells the value. */
  ghost predicate SpeltAs(w: nat, buffer: seq<byte>)
    requires w <= MAX_VALUE
  {
    |buffer| > 0 && var k := Ones(buffer[0]);
    && (k == -1 || 1 <= k <= 5)
    && (k == -1 ==> Encode(w) == [buffer[0]])
    && (k > 0 ==> |Encode(w)| == k + 1 && k < |buffer| && Extra(w) == k && (forall i :: 1 <= i <= k ==> Continuation(buffer[i]))
                  && w == Payload(buffer[0], k) * Pow64(k) + Bits(buffer[1..k + 1]))
  }

  lemma Spelt(w: nat, buffer: seq<byte>)
    requires w <= MAX_VALUE && Encode(w) <= buffer
    ensures SpeltAs(w, buffer)
  {
    hide Encode, Extra, Bits, Pow64, Table4, Payload;
    var e := Encode(w);
    EncodeIs(w);
    Continued(w);
    assert forall i :: 0 <= i < |e| ==> buffer[i] == e[i];
    if |e| > 1 {
      LeadOnes(w);
      assert buffer[1..|e|] == e[1..];
    }
  }

  lemma LeadOnes(w: nat)
    requires w <= MAX_VALUE && |Encode(w)| > 1
    ensures Ones(Encode(w)[0]) == Extra(w) == |Encode(w)| - 1
  {
    HighFits(w);
    hide High;
  }

  /** Some value's encoding stands at the front of `buffer`. */
  ghost predicate Starts(buffer: seq<byte>) {
    exists w: nat :: w <= MAX_VALUE && Encode(w) <= buffer
  }

  /** No character ends behind the first `k` bytes, and byte `k`, if not their length, is to blame. */
  ghost predicate FaultAt(buffer: seq<byte>, k: nat)
    requires |buffer| > 0
  {
    var i := Ones(buffer[0]);
    if k == 0 then i == 0 || i == 6
    else
      && 1 <= i <= 5 && k <= i + 1 && k <= |buffer|
      && (forall m :: 1 <= m < k ==> Continuation(buffer[m]))
      && if k <= i then k < |buffer| && !Continuation(buffer[k])
         else var v := Payload(buffer[0], i) * Pow64(i) + Bits(buffer[1..k]); v <= MAX_VALUE && |Encode(v)| < k
  }

  /** The additional bytes a first byte announces, found by shifting its leading ones out. */
  method LeadingOnes(c: byte) returns (i: int)
    ensures i == Ones(c)
  {
    i := -1;
    var d: nat := c;
    while i < 6 && d / 128 % 2 == 1
      invariant -1 <= i <= 6 && Shifted(c, i, d)
      decreases 6 - i
    {
      d := d * 2;
      i := i + 1;
    }
  }

  predicate Shifted(c: byte, i: int, d: nat) {
    i <= Ones(c) &&
    if i == -1 then d == c else if i == 0 then d == 2 * c else if i == 1 then d == 4 * c else if i == 2 then d == 8 * c
    else if i == 3 then d == 16 * c else if i == 4 then d == 32 * c else if i == 5 then d == 64 * c else d == 128 * c
  }

  /** Reads `i` continuation bytes; `j` of them are there. */
  method ReadTail(buffer: seq<byte>, i: nat) returns (j: nat, d: nat)
    requires 1 <= i <= 5 && |buffer| > 0 && buffer[|buffer| - 1] == 0 && buffer[0] != 0
    ensures j <= i && j < |buffer| && forall k :: 1 <= k <= j ==> Continuation(buffer[k])
    ensures j < i ==> j + 1 < |buffer| && !Continuation(buffer[j + 1])
    ensures j == i ==> d == Payload(buffer[0], i) * Pow64(i) + Bits(buffer[1..i + 1])
  {
    hide Bits, Pow64, Payload;
    ghost var lead := Payload(buffer[0], i);
    var s := i;
    j, d := 0, Payload(buffer[0], i) * Pow64(i);
    BitsNone(buffer, 1);
    while j < i
      invariant 0 <= j <= i && s == i - j && j < |buffer|
      invariant forall k :: 1 <= k <= j ==> Continuation(buffer[k])
      invariant d == lead * Pow64(i) + Bits(buffer[1..j + 1]) * Pow64(s)
    {
      assert buffer[j] != 0;
      var b := buffer[j + 1];
      if !Continuation(b) { return; }
      BitsNext(buffer, 1, j + 1, s);
      s := s - 1;
      d := d + b % 64 * Pow64(s);
      j := j + 1;
    }
  }

  /** The additional bytes the shortest form of `d` needs. */
  method Needed(d: nat) returns (j: nat)
    requires d <= MAX_VALUE
    ensures j == Extra(d)
  {
    j := 0;
    while d > TABLE1[j]
      invariant 0 <= j <= 5 && (j > 0 ==> d > TABLE1[j - 1])
      decreases 5 - j
    {
      j := j + 1;
    }
  }

  /** Reads one character: the number of bytes and the value, or minus the offset at which it is malformed. */
  method Utf82Ord(buffer: seq<byte>) returns (r: int, value: nat)
    requires |buffer| > 0 && buffer[|buffer| - 1] == 0
    ensures r > 0 ==> r <= |buffer| && value <= MAX_VALUE && buffer[..r] == Encode(value)
    ensures r <= 0 ==> -6 <= r && !Starts(buffer) && FaultAt(buffer, -r)
  {
    hide Encode, Bits, Pow64, Payload, Table4, Extra;
    var c := buffer[0];
    var i := LeadingOnes(c);
    forall w: nat | w <= MAX_VALUE && Encode(w) <= buffer
      ensures SpeltAs(w, buffer)
    {
      Spelt(w, buffer);
    }
    if i == -1 {
      AsciiIs(c);
      return 1, c;
    }
    if i == 0 || i == 6 { return 0, 0; }
    var j, d := ReadTail(buffer, i);
    if j < i { return -(j + 1), 0; }
    Shortest(c, buffer[1..i + 1]);
    j := Needed(d);
    EncodeSize(d);
    if j != i { return -(i + 1), 0; }
    assert buffer[..i + 1] == [c] + buffer[1..i + 1];
    return i + 1, d;
  }

  lemma EncodeSize(v: nat)
    requires v <= MAX_VALUE
    ensures |Encode(v)| == Extra(v) + 1
  {
  }

  lemma AsciiIs(c: byte)
    requires c < 0x80
    ensures Encode(c) == [c]
  {
  }
}
