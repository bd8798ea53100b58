/** Reading a CREATE TABLE statement back: the text determines the table. */
module ReadTable {
  import opened Wrappers
  import opened Bytes
  import opened CreateTable

  // ----- names -----

  function WordEnd(t: seq<byte>): (n: nat)
    ensures n <= |t|
  {
    if t == [] || !IsWord(t[0]) then 0 else 1 + WordEnd(t[1..])
  }

  /** What stands before the closing quote, and what follows that; a quote written twice does not close. */
  function ReadQuoted(t: seq<byte>): (r: Option<(seq<byte>, seq<byte>)>)
    ensures r.Some? ==> |r.value.0| + |r.value.1| < |t|
  {
    if t == [] then None
    else if t[0] != QUOTE then Before(t[0], ReadQuoted(t[1..]))
    else if |t| > 1 && t[1] == QUOTE then Before(QUOTE, ReadQuoted(t[2..]))
    else Some(([], t[1..]))
  }

  function Before(c: byte, r: Option<(seq<byte>, seq<byte>)>): Option<(seq<byte>, seq<byte>)> {
    if r.None? then None else Some(([c] + r.value.0, r.value.1))
  }

  /** A name in quotes, or a word that is neither a number nor a keyword. */
  function ReadName(t: seq<byte>, keyword: seq<byte> -> bool): (r: Option<(seq<byte>, seq<byte>)>)
    ensures r.Some? ==> |r.value.1| <= |t|
  {
    if t != [] && t[0] == QUOTE then ReadQuoted(t[1..]) else
    var w := t[..WordEnd(t)];
    if (w != [] && IsDigit(w[0])) || keyword(w) then None else Some((w, t[WordEnd(t)..]))
  }

  /** Nothing that would go on a name. */
  predicate Delimits(rest: seq<byte>) {
    rest == [] || (rest[0] != QUOTE && !IsWord(rest[0]))
  }

  function Twice(c: byte): seq<byte> {
    if c == QUOTE then [QUOTE, QUOTE] else [c]
  }

  lemma {:induction false} DoubledFirst(z: seq<byte>)
    requires z != []
    ensures Doubled(z) == Twice(z[0]) + Doubled(z[1..])
    decreases |z|
  {
    var front := z[..|z| - 1];
    if front == [] {
      assert z[1..] == [] && Doubled(front) == [];
    } else {
      DoubledFirst(front);
      assert z[1..][..|z[1..]| - 1] == front[1..];
    }
  }

  lemma QuotedStep(c: byte, t: seq<byte>)
    ensures ReadQuoted(Twice(c) + t) == Before(c, ReadQuoted(t))
  {
    var u := Twice(c) + t;
    assert u[|Twice(c)|..] == t;
  }

  lemma QuoteCloses(rest: seq<byte>)
    requires Delimits(rest)
    ensures ReadQuoted([QUOTE] + rest) == Some(([], rest))
  {
    var t := [QUOTE] + rest;
    assert t[1..] == rest;
  }

  lemma {:induction false} QuotedRead(z: seq<byte>, rest: seq<byte>)
    requires Delimits(rest)
    ensures ReadQuoted(Doubled(z) + [QUOTE] + rest) == Some((z, rest))
    decreases |z|
  {
    hide ReadQuoted, Doubled, Delimits;
    var t := Doubled(z) + [QUOTE] + rest;
    if z == [] {
      DoubledEmpty();
      assert t == [QUOTE] + rest;
      QuoteCloses(rest);
    } else {
      DoubledFirst(z);
      QuotedRead(z[1..], rest);
      QuotedStep(z[0], Doubled(z[1..]) + [QUOTE] + rest);
      assert t == Twice(z[0]) + (Doubled(z[1..]) + [QUOTE] + rest);
      assert z == [z[0]] + z[1..];
    }
  }

  lemma {:induction false} WordRead(z: seq<byte>, rest: seq<byte>)
    requires Delimits(rest) && forall i :: 0 <= i < |z| ==> IsWord(z[i])
    ensures WordEnd(z + rest) == |z|
    decreases |z|
  {
    if z == [] {
      assert z + rest == rest;
    } else {
      WordRead(z[1..], rest);
      assert (z + rest)[1..] == z[1..] + rest;
    }
  }

  lemma BareRead(z: seq<byte>, rest: seq<byte>, keyword: seq<byte> -> bool)
    requires Delimits(rest) && !NeedsQuote(z, keyword)
    ensures ReadName(z + rest, keyword) == Some((z, rest))
  {
    hide WordEnd;
    var t := z + rest;
    WordRead(z, rest);
    assert t[..|z|] == z && t[|z|..] == rest;
    if z != [] {
      assert t[0] == z[0] && IsWord(z[0]);
    } else {
      assert t == rest;
    }
  }

  lemma InQuotes(body: seq<byte>, keyword: seq<byte> -> bool)
    ensures ReadName([QUOTE] + body, keyword) == ReadQuoted(body)
  {
    var t := [QUOTE] + body;
    assert t[1..] == body;
  }

  /** A name is read back as it was, in front of anything that cannot go on it. */
  lemma NameRead(z: seq<byte>, rest: seq<byte>, keyword: seq<byte> -> bool)
    requires Delimits(rest)
    ensures ReadName(IdentText(z, keyword) + rest, keyword) == Some((z, rest))
  {
    hide NeedsQuote, ReadName, ReadQuoted, Doubled, Delimits;
    if NeedsQuote(z, keyword) {
      QuotedRead(z, rest);
      InQuotes(Doubled(z) + [QUOTE] + rest, keyword);
      assert IdentText(z, keyword) + rest == [QUOTE] + (Doubled(z) + [QUOTE] + rest);
    } else {
      BareRead(z, rest, keyword);
    }
  }

  lemma {:induction false} WordBytes(t: seq<byte>)
    ensures forall i :: 0 <= i < WordEnd(t) ==> IsWord(t[i])
    decreases |t|
  {
    if t != [] && IsWord(t[0]) {
      WordBytes(t[1..]);
      forall i | 0 <= i < WordEnd(t) ensures IsWord(t[i]) {
        if i > 0 { assert t[i] == t[1..][i - 1]; }
      }
    }
  }

  /** Quotes are written exactly where the bare name would not be read as that name. */
  lemma QuotedIff(z: seq<byte>, keyword: seq<byte> -> bool)
    ensures IdentText(z, keyword) == z <==> ReadName(z, keyword) == Some((z, []))
  {
    NameRead(z, [], keyword);
    assert IdentText(z, keyword) + [] == IdentText(z, keyword);
    if NeedsQuote(z, keyword) {
      DoubledLonger(z);
      if ReadName(z, keyword) == Some((z, [])) && z != [] && z[0] != QUOTE {
        assert z[..WordEnd(z)] == z;
        WordBytes(z);
      }
    }
  }

  lemma {:induction false} DoubledLonger(z: seq<byte>)
    ensures |Doubled(z)| == |z| + multiset(z)[QUOTE]
    decreases |z|
  {
    if z != [] {
      DoubledLonger(z[..|z| - 1]);
      assert z == z[..|z| - 1] + [z[|z| - 1]];
    }
  }

  // ----- types -----

  /** The depth of parentheses after `t`; None if one is closed too many, or a comma stands outside them. */
  function Depth(t: seq<byte>, d: nat): Option<nat> {
    if t == [] then Some(d)
    else if t[0] == '(' as int then Depth(t[1..], d + 1)
    else if t[0] == ')' as int then if d == 0 then None else Depth(t[1..], d - 1)
    else if t[0] == ',' as int && d == 0 then None
    else Depth(t[1..], d)
  }

  /** A type as the parser puts one together. */
  predicate Balanced(t: seq<byte>) {
    Depth(t, 0) == Some(0)
  }

  /** Where a type ends: before a comma outside parentheses. */
  function TypeEnd(t: seq<byte>, d: nat): (n: nat)
    ensures n <= |t|
  {
    if t == [] || (t[0] == ',' as int && d == 0) then 0
    else 1 + TypeEnd(t[1..], if t[0] == '(' as int then d + 1 else if t[0] == ')' as int && d > 0 then d - 1 else d)
  }

  lemma {:induction false} TypeRead(t: seq<byte>, rest: seq<byte>, d: nat)
    requires Depth(t, d) == Some(0) && (rest == [] || rest[0] == ',' as int)
    ensures TypeEnd(t + rest, d) == |t|
    decreases |t|
  {
    if t == [] {
      assert t + rest == rest;
    } else {
      TypeRead(t[1..], rest, if t[0] == '(' as int then d + 1 else if t[0] == ')' as int && d > 0 then d - 1 else d);
      assert (t + rest)[1..] == t[1..] + rest;
    }
  }

  // ----- columns -----

  type ReadColumn = (seq<byte>, Option<seq<byte>>)

  function AsRead(c: Column): ReadColumn {
    (c.name, if c.type_.Some? then Some(c.type_.value) else None)
  }

  function AllAsRead(cols: seq<Column>): seq<ReadColumn> {
    if cols == [] then [] else [AsRead(cols[0])] + AllAsRead(cols[1..])
  }

  /** One column; a blank after the name announces a type. */
  function ReadOne(t: seq<byte>, keyword: seq<byte> -> bool): (r: Option<(ReadColumn, seq<byte>)>)
    ensures r.Some? ==> |r.value.1| <= |t|
  {
    var r := ReadName(t, keyword);
    if r.None? then None else
    var (name, rest) := r.value;
    if rest == [] || rest[0] != ' ' as int then Some(((name, None), rest)) else
    var n := TypeEnd(rest[1..], 0);
    Some(((name, Some(rest[1..1 + n])), rest[1 + n..]))
  }

  /** Columns with `sep` between them, to the end of the text. */
  function ReadColumns(t: seq<byte>, sep: seq<byte>, keyword: seq<byte> -> bool): Option<seq<ReadColumn>>
    requires sep != []
    decreases |t|
  {
    var r := ReadOne(t, keyword);
    if r.None? then None else
    var (c, rest) := r.value;
    if rest == [] then Some([c])
    else if !(sep <= rest) then None
    else
      var more := ReadColumns(rest[|sep|..], sep, keyword);
      if more.None? then None else Some([c] + more.value)
  }

  /** The text of the columns `cols`, each after a separator. */
  ghost function MoreText(cols: seq<Column>, sep: seq<byte>, keyword: seq<byte> -> bool): seq<byte> {
    if cols == [] then [] else sep + ColumnText(cols[0], keyword) + MoreText(cols[1..], sep, keyword)
  }

  predicate IsSep(sep: seq<byte>) {
    sep != [] && sep[0] == ',' as int
  }

  lemma Untyped(t: seq<byte>, name: seq<byte>, rest: seq<byte>, keyword: seq<byte> -> bool)
    requires ReadName(t, keyword) == Some((name, rest)) && (rest == [] || rest[0] == ',' as int)
    ensures ReadOne(t, keyword) == Some(((name, None), rest))
  {
    hide ReadName, TypeEnd;
  }

  lemma Typed(t: seq<byte>, name: seq<byte>, type_: seq<byte>, rest: seq<byte>, keyword: seq<byte> -> bool)
    requires ReadName(t, keyword) == Some((name, [' ' as int] + (type_ + rest))) && TypeEnd(type_ + rest, 0) == |type_|
    ensures ReadOne(t, keyword) == Some(((name, Some(type_)), rest))
  {
    hide ReadName, TypeEnd;
    var after, n := [' ' as int] + (type_ + rest), |type_|;
    assert after[1..] == type_ + rest;
    assert after[1..1 + n] == type_ && after[1 + n..] == rest;
  }

  lemma OneRead(c: Column, rest: seq<byte>, keyword: seq<byte> -> bool)
    requires (rest == [] || rest[0] == ',' as int) && (c.type_.Some? ==> Balanced(c.type_.value))
    ensures ReadOne(ColumnText(c, keyword) + rest, keyword) == Some((AsRead(c), rest))
  {
    hide IdentText, ReadName, ReadOne, TypeEnd, Depth;
    var t := ColumnText(c, keyword) + rest;
    if c.type_.None? {
      NameRead(c.name, rest, keyword);
      assert t == IdentText(c.name, keyword) + rest;
      Untyped(t, c.name, rest, keyword);
    } else {
      var after := [' ' as int] + (c.type_.value + rest);
      Blank();
      assert t == IdentText(c.name, keyword) + after;
      NameRead(c.name, after, keyword);
      TypeRead(c.type_.value, rest, 0);
      Typed(t, c.name, c.type_.value, rest, keyword);
    }
  }

  lemma Blank()
    ensures Ascii(" ") == [' ' as int]
  {
  }

  lemma {:induction false} ColumnsRead(cols: seq<Column>, sep: seq<byte>, keyword: seq<byte> -> bool)
    requires cols != [] && IsSep(sep) && forall c :: c in cols && c.type_.Some? ==> Balanced(c.type_.value)
    ensures ReadColumns(ColumnText(cols[0], keyword) + MoreText(cols[1..], sep, keyword), sep, keyword) == Some(AllAsRead(cols))
    decreases |cols|
  {
    hide ColumnText, ReadOne, Balanced;
    var tl := cols[1..];
    var rest := MoreText(tl, sep, keyword);
    assert cols[0] in cols;
    OneRead(cols[0], rest, keyword);
    if tl != [] {
      ColumnsRead(tl, sep, keyword);
      assert rest == sep + (ColumnText(tl[0], keyword) + MoreText(tl[1..], sep, keyword));
      assert rest[|sep|..] == ColumnText(tl[0], keyword) + MoreText(tl[1..], sep, keyword);
    } else {
      assert AllAsRead(cols) == [AsRead(cols[0])];
    }
  }

  lemma {:induction false} ColumnsFrom(cols: seq<Column>, n: nat, first: seq<byte>, sep: seq<byte>, keyword: seq<byte> -> bool)
    requires 1 <= n <= |cols|
    ensures ColumnsText(cols, |cols|, first, sep, keyword) == ColumnsText(cols, n, first, sep, keyword) + MoreText(cols[n..], sep, keyword)
    decreases |cols| - n
  {
    hide ColumnText;
    if n < |cols| {
      ColumnsFrom(cols, n + 1, first, sep, keyword);
      ColumnsNext(cols, n, first, sep, keyword);
      assert cols[n..][1..] == cols[n + 1..];
      Joined(ColumnsText(cols, n, first, sep, keyword), sep, ColumnText(cols[n], keyword), MoreText(cols[n + 1..], sep, keyword));
    } else {
      assert cols[n..] == [];
    }
  }

  lemma Joined(a: seq<byte>, b: seq<byte>, c: seq<byte>, d: seq<byte>)
    ensures a + b + c + d == a + (b + c + d)
  {
  }

  // ----- the statement -----

  datatype ReadStatement = ReadStatement(temp: bool, name: seq<byte>, cols: seq<ReadColumn>)

  const CREATE: seq<byte> := Ascii("CREATE TABLE ")
  const CREATE_TEMP: seq<byte> := Ascii("CREATE TEMP TABLE ")
  const INDENT: seq<byte> := [10, 32, 32]

  /** TEMP or not, the name, and what follows the opening parenthesis. */
  function ReadHead(t: seq<byte>, keyword: seq<byte> -> bool): Option<(bool, seq<byte>, seq<byte>)> {
    if !(CREATE <= t || CREATE_TEMP <= t) then None else
    var temp := CREATE_TEMP <= t;
    var r := ReadName(t[if temp then |CREATE_TEMP| else |CREATE|..], keyword);
    if r.None? || r.value.1 == [] || r.value.1[0] != '(' as int then None else Some((temp, r.value.0, r.value.1[1..]))
  }

  /** The columns, on one line or on a line each. */
  function ReadBody(t: seq<byte>, keyword: seq<byte> -> bool): Option<seq<ReadColumn>> {
    var broken := t != [] && t[0] == 10;
    var end: seq<byte> := if broken then [10, 41] else [41];
    if |t| < |end| || t[|t| - |end|..] != end then None else
    var body := t[..|t| - |end|];
    if body == [] then Some([])
    else if !broken then ReadColumns(body, [44], keyword)
    else if INDENT <= body then ReadColumns(body[3..], [44] + INDENT, keyword)
    else None
  }

  function Read(t: seq<byte>, keyword: seq<byte> -> bool): Option<ReadStatement> {
    var head := ReadHead(t, keyword);
    if head.None? then None else
    var body := ReadBody(head.value.2, keyword);
    if body.None? then None else Some(ReadStatement(head.value.0, head.value.1, body.value))
  }

  lemma Keywords()
    ensures |CREATE| == 13 && |CREATE_TEMP| == 18 && CREATE[8] == 65 && CREATE_TEMP[8] == 69
    ensures Ascii("(") == [40] && Ascii(")") == [41] && Ascii(",") == [44] && Ascii("\n)") == [10, 41]
    ensures Ascii("\n  ") == INDENT && Ascii(",\n  ") == [44] + INDENT && Ascii("") == []
  {
  }

  lemma HeadRead(p: Table, tail: seq<byte>, keyword: seq<byte> -> bool)
    ensures ReadHead(HeadText(p, keyword) + tail, keyword) == Some((p.temp, p.name, tail))
  {
    hide ReadName, IdentText, Ascii;
    Keywords();
    var start := if p.temp then CREATE_TEMP else CREATE;
    var after := [40] + tail;
    var t := start + (IdentText(p.name, keyword) + after);
    assert HeadText(p, keyword) + tail == t;
    NameRead(p.name, after, keyword);
    assert t[|start|..] == IdentText(p.name, keyword) + after;
    assert t[8] == start[8];
    assert after[1..] == tail;
  }

  /** The text of a column never begins with a newline, and is empty only without name and type. */
  lemma ColumnStart(c: Column, keyword: seq<byte> -> bool)
    ensures ColumnText(c, keyword) == [] <==> c.name == [] && c.type_.None? && !keyword([])
    ensures ColumnText(c, keyword) != [] ==> ColumnText(c, keyword)[0] != 10
  {
    Blank();
    if c.name == [] { assert NeedsQuote(c.name, keyword) <==> keyword([]); }
    if !NeedsQuote(c.name, keyword) && c.name != [] { assert IsWord(c.name[0]); }
  }

  /** The columns as they are written, without the line structure around them. */
  lemma ColumnsSplit(cols: seq<Column>, first: seq<byte>, sep: seq<byte>, keyword: seq<byte> -> bool)
    requires cols != []
    ensures ColumnsText(cols, |cols|, first, sep, keyword) == first + (ColumnText(cols[0], keyword) + MoreText(cols[1..], sep, keyword))
  {
    hide ColumnText;
    ColumnsFrom(cols, 1, first, sep, keyword);
    ColumnsNone(cols, first, sep, keyword);
    ColumnsNext(cols, 0, first, sep, keyword);
    assert [] + first + ColumnText(cols[0], keyword) == first + ColumnText(cols[0], keyword);
  }

  /** One column without name and type looks like none on a single line. */
  predicate Invisible(cols: seq<Column>, keyword: seq<byte> -> bool) {
    |cols| == 1 && cols[0].name == [] && cols[0].type_.None? && !keyword([])
  }

  lemma OnLine(body: seq<byte>, keyword: seq<byte> -> bool)
    requires body != [] ==> body[0] != 10
    ensures ReadBody(body + [41], keyword) == if body == [] then Some([]) else ReadColumns(body, [44], keyword)
  {
    hide ReadColumns;
    var t := body + [41];
    assert t[..|t| - 1] == body && t[|t| - 1..] == [41];
  }

  lemma OnLines(body: seq<byte>, keyword: seq<byte> -> bool)
    ensures ReadBody(INDENT + body + [10, 41], keyword) == ReadColumns(body, [44] + INDENT, keyword)
    ensures ReadBody([10, 41], keyword) == Some([])
  {
    hide ReadColumns;
    var t := INDENT + body + [10, 41];
    assert t[..|t| - 2] == INDENT + body && t[|t| - 2..] == [10, 41];
    assert (INDENT + body)[3..] == body;
  }

  lemma LineRead(cols: seq<Column>, keyword: seq<byte> -> bool)
    requires forall c :: c in cols && c.type_.Some? ==> Balanced(c.type_.value)
    ensures ReadBody(ColumnsText(cols, |cols|, [], [44], keyword) + [41], keyword) ==
            if Invisible(cols, keyword) then Some([]) else Some(AllAsRead(cols))
  {
    hide ColumnText, ReadColumns, Balanced, ReadBody, ColumnsText, MoreText;
    var body := ColumnsText(cols, |cols|, [], [44], keyword);
    if cols == [] {
      ColumnsNone(cols, [], [44], keyword);
    } else {
      var head, rest := ColumnText(cols[0], keyword), MoreText(cols[1..], [44], keyword);
      ColumnsSplit(cols, [], [44], keyword);
      assert body == head + rest;
      ColumnsRead(cols, [44], keyword);
      ColumnStart(cols[0], keyword);
      MoreStart(cols[1..], [44], keyword);
    }
    OnLine(body, keyword);
  }

  lemma MoreStart(cols: seq<Column>, sep: seq<byte>, keyword: seq<byte> -> bool)
    requires IsSep(sep)
    ensures cols == [] <==> MoreText(cols, sep, keyword) == []
    ensures cols != [] ==> MoreText(cols, sep, keyword)[0] == 44
  {
  }

  lemma LinesRead(cols: seq<Column>, keyword: seq<byte> -> bool)
    requires forall c :: c in cols && c.type_.Some? ==> Balanced(c.type_.value)
    ensures ReadBody(ColumnsText(cols, |cols|, INDENT, [44] + INDENT, keyword) + [10, 41], keyword) == Some(AllAsRead(cols))
  {
    hide ColumnText, ReadColumns, Balanced, ReadBody, ColumnsText, MoreText;
    var sep := [44] + INDENT;
    if cols == [] {
      ColumnsNone(cols, INDENT, sep, keyword);
      OnLines([], keyword);
      assert [] + [10, 41] == [10, 41];
    } else {
      ColumnsSplit(cols, INDENT, sep, keyword);
      ColumnsRead(cols, sep, keyword);
      OnLines(ColumnText(cols[0], keyword) + MoreText(cols[1..], sep, keyword), keyword);
    }
  }

  /** What the text takes with all names quoted. */
  ghost function Volume(p: Table): nat {
    ColumnsVolume(p.cols) + NameVolume(p.name)
  }

  ghost function NameVolume(z: seq<byte>): nat {
    2 + |z| + multiset(z)[QUOTE]
  }

  ghost function ColumnsVolume(cols: seq<Column>): nat {
    if cols == [] then 0 else
    NameVolume(cols[0].name) + (if cols[0].type_.Some? then 1 + |cols[0].type_.value| else 0) + ColumnsVolume(cols[1..])
  }

  lemma {:induction false} VolumeFrom(cols: seq<Column>, n: nat)
    requires n <= |cols|
    ensures ColumnsSize(cols, |cols|) == ColumnsSize(cols, n) + ColumnsVolume(cols[n..])
    decreases |cols| - n
  {
    if n < |cols| {
      VolumeFrom(cols, n + 1);
      SizeNext(cols, n);
      DoubledLonger(cols[n].name);
      assert cols[n..][1..] == cols[n + 1..];
    }
  }

  ghost predicate Small(p: Table) {
    ColumnsSize(p.cols, |p.cols|) + |Doubled(p.name)| + 2 < 50
  }

  lemma StatementParts(p: Table, keyword: seq<byte> -> bool)
    ensures Small(p) ==> StatementText(p, keyword) == HeadText(p, keyword) + (ColumnsText(p.cols, |p.cols|, [], [44], keyword) + [41])
    ensures !Small(p) ==> StatementText(p, keyword) == HeadText(p, keyword) + (ColumnsText(p.cols, |p.cols|, INDENT, [44] + INDENT, keyword) + [10, 41])
    ensures Small(p) <==> Volume(p) < 50
  {
    hide HeadText, ColumnsText, ColumnsSize, Ascii, Doubled;
    Keywords();
    VolumeFrom(p.cols, 0);
    assert p.cols[0..] == p.cols;
    SizeNone(p.cols);
    DoubledLonger(p.name);
  }

  lemma SizeNone(cols: seq<Column>)
    ensures ColumnsSize(cols, 0) == 0
  {
  }

  /**
   * The statement says everything there is to the table, except where a table with one column that
   * has neither a name nor a type is written on one line: that reads like a table without columns.
   */
  lemma StatementRead(p: Table, keyword: seq<byte> -> bool)
    requires forall c :: c in p.cols && c.type_.Some? ==> Balanced(c.type_.value)
    ensures Read(StatementText(p, keyword), keyword) == Some(ReadStatement(p.temp, p.name, AllAsRead(p.cols)))
            <==> !(Volume(p) < 50 && Invisible(p.cols, keyword))
  {
    hide StatementText, HeadText, ColumnsText, ReadHead, ReadBody, Balanced, Volume, Small;
    StatementParts(p, keyword);
    if Small(p) {
      LineRead(p.cols, keyword);
      HeadRead(p, ColumnsText(p.cols, |p.cols|, [], [44], keyword) + [41], keyword);
    } else {
      LinesRead(p.cols, keyword);
      HeadRead(p, ColumnsText(p.cols, |p.cols|, INDENT, [44] + INDENT, keyword) + [10, 41], keyword);
    }
  }

  /** Lines are broken exactly from a volume of 50 on. */
  lemma LinesBroken(p: Table, keyword: seq<byte> -> bool)
    ensures var text, k := StatementText(p, keyword), |HeadText(p, keyword)|; k < |text| && (text[k] == 10 <==> Volume(p) >= 50)
  {
    hide HeadText, ColumnText, Volume, Small, StatementText;
    StatementParts(p, keyword);
    ColumnsNone(p.cols, [], [44], keyword);
    ColumnsNone(p.cols, INDENT, [44] + INDENT, keyword);
    if p.cols != [] {
      ColumnsSplit(p.cols, [], [44], keyword);
      ColumnsSplit(p.cols, INDENT, [44] + INDENT, keyword);
      ColumnStart(p.cols[0], keyword);
      MoreStart(p.cols[1..], [44], keyword);
    }
  }
}
