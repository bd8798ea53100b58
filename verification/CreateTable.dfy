/** The CREATE TABLE printer: what it writes, that it fits the buffer, and that names can be read back. */
module CreateTable {
  import opened Wrappers
  import opened Bytes

  /** A string of C: its bytes, without the terminator. */
  type CString = s: seq<byte> | 0 !in s

  datatype Column = Column(name: CString, type_: Option<CString>)
  datatype Table = Table(name: CString, temp: bool, cols: seq<Column>)

  const QUOTE: byte := 34

  /** The bytes of a literal. */
  function Ascii(s: string): (r: CString)
    requires forall i :: 0 <= i < |s| ==> 0 < s[i] as int < 128
    ensures |r| == |s|
  {
    var r: seq<byte> := seq(|s|, i requires 0 <= i < |s| => s[i] as int);
    r
  }

  predicate IsDigit(c: byte) {
    '0' as int <= c <= '9' as int
  }

  predicate IsAlnum(c: byte) {
    IsDigit(c) || 'A' as int <= c <= 'Z' as int || 'a' as int <= c <= 'z' as int
  }

  predicate IsWord(c: byte) {
    IsAlnum(c) || c == '_' as int
  }

  // ----- identifiers -----

  /** Each quote written twice. */
  function Doubled(z: seq<byte>): seq<byte> {
    if z == [] then [] else Doubled(z[..|z| - 1]) + if z[|z| - 1] == QUOTE then [QUOTE, QUOTE] else [z[|z| - 1]]
  }

  /** `keyword` tells the words that sqlite3KeywordCode does not take for identifiers. */
  ghost predicate NeedsQuote(z: seq<byte>, keyword: seq<byte> -> bool) {
    (exists i :: 0 <= i < |z| && !IsWord(z[i])) || (z != [] && IsDigit(z[0])) || keyword(z)
  }

  ghost function IdentText(z: seq<byte>, keyword: seq<byte> -> bool): seq<byte> {
    if NeedsQuote(z, keyword) then [QUOTE] + Doubled(z) + [QUOTE] else z
  }

  lemma DoubledNext(z: seq<byte>, n: nat)
    requires n < |z|
    ensures Doubled(z[..n + 1]) == Doubled(z[..n]) + if z[n] == QUOTE then [QUOTE, QUOTE] else [z[n]]
  {
    assert z[..n + 1][..n] == z[..n];
  }

  lemma {:induction false} DoubledPlain(z: seq<byte>)
    requires forall i :: 0 <= i < |z| ==> IsWord(z[i])
    ensures Doubled(z) == z
    decreases |z|
  {
    if z != [] {
      DoubledPlain(z[..|z| - 1]);
      assert z[|z| - 1] != QUOTE;
    }
  }

  /** The number of bytes needed, quotes included; possibly more. */
  method IdentLength(z: CString) returns (n: nat)
    ensures n == |Doubled(z)| + 2
  {
    n := 0;
    var i := 0;
    while i < |z|
      invariant 0 <= i <= |z| && n == |Doubled(z[..i])|
    {
      DoubledNext(z, i);
      if z[i] == QUOTE { n := n + 1; }
      n := n + 1;
      i := i + 1;
    }
    assert z[..i] == z;
    n := n + 2;
  }

  /** Reads a name back from its text. */
  function Unquote(t: seq<byte>): seq<byte> {
    if |t| >= 2 && t[0] == QUOTE then Undouble(t[1..|t| - 1]) else t
  }

  function Undouble(t: seq<byte>): seq<byte>
    decreases |t|
  {
    if t == [] then []
    else if |t| >= 2 && t[|t| - 1] == QUOTE && t[|t| - 2] == QUOTE then Undouble(t[..|t| - 2]) + [QUOTE]
    else Undouble(t[..|t| - 1]) + [t[|t| - 1]]
  }

  lemma UndoubleStep(d: seq<byte>, c: byte)
    ensures Undouble(d + [QUOTE, QUOTE]) == Undouble(d) + [QUOTE]
    ensures c != QUOTE ==> Undouble(d + [c]) == Undouble(d) + [c]
  {
  }

  lemma {:induction false} UndoubleDoubled(z: seq<byte>)
    ensures Undouble(Doubled(z)) == z
    decreases |z|
  {
    hide Undouble;
    if z == [] {
      UndoubleEmpty();
    } else {
      var front, c := z[..|z| - 1], z[|z| - 1];
      UndoubleDoubled(front);
      UndoubleStep(Doubled(front), c);
      assert z == front + [c];
    }
  }

  lemma UndoubleEmpty()
    ensures Undouble([]) == []
  {
  }

  /** Whatever the name, it can be read back from what is printed. */
  lemma IdentRoundTrip(z: seq<byte>, keyword: seq<byte> -> bool)
    ensures Unquote(IdentText(z, keyword)) == z
  {
    if NeedsQuote(z, keyword) {
      var t := [QUOTE] + Doubled(z) + [QUOTE];
      assert t[1..|t| - 1] == Doubled(z);
      UndoubleDoubled(z);
    } else if z != [] {
      assert IsWord(z[0]);
    }
  }

  // ----- writing -----

  /** strcpy, with its terminator. */
  method StrCpy(buf: array<byte>, k: nat, s: CString) returns (next: nat)
    requires k + |s| < buf.Length
    modifies buf
    ensures next == k + |s| && buf[..next] == old(buf[..k]) + s && buf[next] == 0
  {
    var i := 0;
    while i < |s|
      invariant 0 <= i <= |s| && buf[..k + i] == old(buf[..k]) + s[..i]
    {
      buf[k + i] := s[i];
      i := i + 1;
    }
    buf[k + i] := 0;
    next := k + i;
    assert s[..i] == s;
  }

  method Store(buf: array<byte>, k: nat, c: byte) returns (next: nat)
    requires k < buf.Length
    modifies buf
    ensures next == k + 1 && buf[..next] == old(buf[..k]) + [c]
  {
    buf[k] := c;
    next := k + 1;
  }

  method IdentPut(buf: array<byte>, k: nat, z: CString, keyword: seq<byte> -> bool) returns (next: nat)
    requires k + |IdentText(z, keyword)| < buf.Length
    modifies buf
    ensures next == k + |IdentText(z, keyword)| && buf[..next] == old(buf[..k]) + IdentText(z, keyword) && buf[next] == 0
  {
    hide Doubled;
    var needQuote := MustQuote(z, keyword);
    if !needQuote { DoubledPlain(z); }
    ghost var head := if needQuote then [QUOTE] else [];
    next := k;
    if needQuote { next := Store(buf, next, QUOTE); }
    next := PutDoubled(buf, next, z);
    if needQuote { next := Store(buf, next, QUOTE); }
    buf[next] := 0;
    assert buf[..next] == old(buf[..k]) + IdentText(z, keyword);
  }

  method MustQuote(z: CString, keyword: seq<byte> -> bool) returns (needQuote: bool)
    ensures needQuote == NeedsQuote(z, keyword)
  {
    var j := 0;
    while j < |z| && IsWord(z[j])
      invariant 0 <= j <= |z| && forall i :: 0 <= i < j ==> IsWord(z[i])
    {
      j := j + 1;
    }
    needQuote := j < |z| || (z != [] && IsDigit(z[0])) || keyword(z[..j]);
    assert j == |z| ==> z[..j] == z;
  }

  /** The bytes of a name, quotes doubled. */
  method PutDoubled(buf: array<byte>, k: nat, z: CString) returns (next: nat)
    requires k + |Doubled(z)| <= buf.Length
    modifies buf
    ensures next == k + |Doubled(z)| && buf[..next] == old(buf[..k]) + Doubled(z)
  {
    hide Doubled;
    next := k;
    var j := 0;
    DoubledGrows(z, 0);
    DoubledEmpty();
    while j < |z|
      invariant 0 <= j <= |z| && next == k + |Doubled(z[..j])| <= buf.Length
      invariant buf[..next] == old(buf[..k]) + Doubled(z[..j])
    {
      DoubledNext(z, j);
      DoubledGrows(z, j + 1);
      next := Store(buf, next, z[j]);
      if z[j] == QUOTE { next := Store(buf, next, QUOTE); }
      j := j + 1;
    }
    assert z[..j] == z;
  }

  lemma DoubledEmpty()
    ensures Doubled([]) == []
  {
  }

  lemma {:induction false} DoubledGrows(z: seq<byte>, n: nat)
    requires n <= |z|
    ensures |Doubled(z[..n])| <= |Doubled(z)|
    decreases |z| - n
  {
    if n == |z| {
      assert z[..n] == z;
    } else {
      DoubledNext(z, n);
      DoubledGrows(z, n + 1);
    }
  }

  // ----- the statement -----

  ghost function ColumnText(c: Column, keyword: seq<byte> -> bool): seq<byte> {
    IdentText(c.name, keyword) + if c.type_.Some? then Ascii(" ") + c.type_.value else []
  }

  /** The first `n` columns, `first` before the first of them and `sep` before each other one. */
  ghost function ColumnsText(cols: seq<Column>, n: nat, first: seq<byte>, sep: seq<byte>, keyword: seq<byte> -> bool): seq<byte>
    requires n <= |cols|
  {
    if n == 0 then [] else ColumnsText(cols, n - 1, first, sep, keyword) + (if n == 1 then first else sep) + ColumnText(cols[n - 1], keyword)
  }

  /** What the names and types alone may take. */
  ghost function ColumnsSize(cols: seq<Column>, n: nat): nat
    requires n <= |cols|
  {
    if n == 0 then 0 else
    ColumnsSize(cols, n - 1) + |Doubled(cols[n - 1].name)| + 2 + if cols[n - 1].type_.Some? then |cols[n - 1].type_.value| + 1 else 0
  }

  ghost function StatementText(p: Table, keyword: seq<byte> -> bool): seq<byte> {
    var small := ColumnsSize(p.cols, |p.cols|) + |Doubled(p.name)| + 2 < 50;
    HeadText(p, keyword) + ColumnsText(p.cols, |p.cols|, if small then [] else Ascii("\n  "), if small then Ascii(",") else Ascii(",\n  "), keyword)
    + if small then Ascii(")") else Ascii("\n)")
  }

  lemma IdentFits(z: seq<byte>, keyword: seq<byte> -> bool)
    ensures |IdentText(z, keyword)| <= |Doubled(z)| + 2
  {
    if !NeedsQuote(z, keyword) { DoubledPlain(z); }
  }

  lemma ColumnFits(c: Column, keyword: seq<byte> -> bool)
    ensures |ColumnText(c, keyword)| <= |Doubled(c.name)| + 2 + if c.type_.Some? then |c.type_.value| + 1 else 0
  {
    hide IdentText, Doubled;
    IdentFits(c.name, keyword);
  }

  lemma {:induction false} ColumnsFit(cols: seq<Column>, n: nat, first: seq<byte>, sep: seq<byte>, keyword: seq<byte> -> bool)
    requires n <= |cols| && |first| <= 4 && |sep| <= 4
    ensures |ColumnsText(cols, n, first, sep, keyword)| <= ColumnsSize(cols, n) + 4 * n
    decreases n
  {
    if n > 0 {
      var i, c := n - 1, cols[n - 1];
      ColumnsNext(cols, i, first, sep, keyword);
      SizeNext(cols, i);
      hide ColumnText, ColumnsText, ColumnsSize, Doubled;
      ColumnsFit(cols, i, first, sep, keyword);
      ColumnFits(c, keyword);
      Longer(ColumnsText(cols, i, first, sep, keyword), if i == 0 then first else sep, ColumnText(c, keyword));
    }
  }

  lemma Longer(a: seq<byte>, b: seq<byte>, c: seq<byte>)
    ensures |a + b + c| == |a| + |b| + |c|
  {
  }

  lemma SizeNext(cols: seq<Column>, i: nat)
    requires i < |cols|
    ensures var c := cols[i];
            ColumnsSize(cols, i + 1) == ColumnsSize(cols, i) + |Doubled(c.name)| + 2 + if c.type_.Some? then |c.type_.value| + 1 else 0
  {
  }

  /** One column, with its separator. */
  method PutColumn(buf: array<byte>, k: nat, sep: CString, c: Column, keyword: seq<byte> -> bool) returns (next: nat)
    requires k + |sep| + |ColumnText(c, keyword)| < buf.Length
    modifies buf
    ensures next == k + |sep| + |ColumnText(c, keyword)| && buf[..next] == old(buf[..k]) + sep + ColumnText(c, keyword)
  {
    hide IdentText;
    next := StrCpy(buf, k, sep);
    next := IdentPut(buf, next, c.name, keyword);
    if c.type_.Some? {
      next := Store(buf, next, ' ' as int);
      next := StrCpy(buf, next, c.type_.value);
    }
  }

  /** How much to allocate, before the fixed parts are added. */
  method TextSize(p: Table) returns (n: nat)
    ensures n == ColumnsSize(p.cols, |p.cols|) + |Doubled(p.name)| + 2
  {
    n := 0;
    var i := 0;
    while i < |p.cols|
      invariant 0 <= i <= |p.cols| && n == ColumnsSize(p.cols, i)
    {
      var len := IdentLength(p.cols[i].name);
      n := n + len;
      if p.cols[i].type_.Some? { n := n + |p.cols[i].type_.value| + 1; }
      i := i + 1;
    }
    var len := IdentLength(p.name);
    n := n + len;
  }

  ghost function HeadText(p: Table, keyword: seq<byte> -> bool): seq<byte> {
    (if p.temp then Ascii("CREATE TEMP TABLE ") else Ascii("CREATE TABLE ")) + IdentText(p.name, keyword) + Ascii("(")
  }

  /** Up to the opening parenthesis. */
  method PutHead(buf: array<byte>, p: Table, keyword: seq<byte> -> bool) returns (k: nat)
    requires 19 + |IdentText(p.name, keyword)| < buf.Length
    modifies buf
    ensures k == |HeadText(p, keyword)| <= 19 + |IdentText(p.name, keyword)| && buf[..k] == HeadText(p, keyword)
  {
    var start := if p.temp then Ascii("CREATE TEMP TABLE ") else Ascii("CREATE TABLE ");
    ghost var open := Ascii("(");
    assert |start| <= 18 && open == ['(' as int] && HeadText(p, keyword) == start + IdentText(p.name, keyword) + open;
    hide IdentText, HeadText, Ascii;
    k := StrCpy(buf, 0, start);
    assert buf[..0] == [] && [] + start == start;
    assert buf[..k] == start;
    k := IdentPut(buf, k, p.name, keyword);
    k := Store(buf, k, '(' as int);
  }

  method PutColumns(buf: array<byte>, k0: nat, cols: seq<Column>, first: CString, sep2: CString, keyword: seq<byte> -> bool) returns (k: nat)
    requires k0 + |ColumnsText(cols, |cols|, first, sep2, keyword)| < buf.Length
    modifies buf
    ensures k == k0 + |ColumnsText(cols, |cols|, first, sep2, keyword)|
    ensures buf[..k] == old(buf[..k0]) + ColumnsText(cols, |cols|, first, sep2, keyword)
  {
    hide ColumnText, ColumnsText;
    ghost var head := buf[..k0];
    k := k0;
    var sep := first;
    ColumnsNone(cols, first, sep2, keyword);
    ColumnsGrow(cols, 0, first, sep2, keyword);
    var i := 0;
    while i < |cols|
      invariant 0 <= i <= |cols| && sep == if i == 0 then first else sep2
      invariant k == k0 + |ColumnsText(cols, i, first, sep2, keyword)| <= buf.Length
      invariant buf[..k] == head + ColumnsText(cols, i, first, sep2, keyword)
    {
      ColumnsNext(cols, i, first, sep2, keyword);
      ColumnsGrow(cols, i + 1, first, sep2, keyword);
      k := PutColumn(buf, k, sep, cols[i], keyword);
      sep := sep2;
      i := i + 1;
    }
  }

  /** The statement fits the block allocated for it, terminator included, whatever the names and types. */
  method CreateTableStmt(p: Table, keyword: seq<byte> -> bool) returns (zStmt: array<byte>)
    ensures fresh(zStmt)
    ensures var text := StatementText(p, keyword); |text| < zStmt.Length && zStmt[..|text|] == text && zStmt[|text|] == 0
  {
    hide IdentText, ColumnText, ColumnsText, ColumnsSize, Doubled, Ascii;
    var n := TextSize(p);
    var first, sep, end := Ascii(""), Ascii(","), Ascii(")");
    if n >= 50 { first, sep, end := Ascii("\n  "), Ascii(",\n  "), Ascii("\n)"); }
    EmptyAscii();
    ColumnsFit(p.cols, |p.cols|, first, sep, keyword);
    IdentFits(p.name, keyword);
    n := n + 35 + 6 * |p.cols|;
    zStmt := new byte[n];
    var k := PutHead(zStmt, p, keyword);
    hide HeadText;
    k := PutColumns(zStmt, k, p.cols, first, sep, keyword);
    k := StrCpy(zStmt, k, end);
  }

  lemma EmptyAscii()
    ensures Ascii("") == []
  {
  }

  lemma ColumnsNone(cols: seq<Column>, first: seq<byte>, sep: seq<byte>, keyword: seq<byte> -> bool)
    ensures ColumnsText(cols, 0, first, sep, keyword) == []
  {
  }

  lemma ColumnsNext(cols: seq<Column>, i: nat, first: seq<byte>, sep: seq<byte>, keyword: seq<byte> -> bool)
    requires i < |cols|
    ensures ColumnsText(cols, i + 1, first, sep, keyword) ==
            ColumnsText(cols, i, first, sep, keyword) + (if i == 0 then first else sep) + ColumnText(cols[i], keyword)
  {
  }

  lemma {:induction false} ColumnsGrow(cols: seq<Column>, i: nat, first: seq<byte>, sep: seq<byte>, keyword: seq<byte> -> bool)
    requires i <= |cols|
    ensures |ColumnsText(cols, i, first, sep, keyword)| <= |ColumnsText(cols, |cols|, first, sep, keyword)|
    decreases |cols| - i
  {
    hide ColumnsText, ColumnText;
    if i < |cols| {
      ColumnsNext(cols, i, first, sep, keyword);
      Longer(ColumnsText(cols, i, first, sep, keyword), if i == 0 then first else sep, ColumnText(cols[i], keyword));
      ColumnsGrow(cols, i + 1, first, sep, keyword);
    }
  }
}
