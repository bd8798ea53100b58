/**
 * The table of group names: sorted insertion into fixed-size slots of bytes when a pattern is
 * compiled, and the binary search of pcre_get_stringnumber.
 */
module NameTable {
  import opened Bytes

  /** A name and the number of its group. */
  datatype Entry = Entry(name: seq<byte>, number: nat) {
    predicate Valid() {
      0 !in name && number < 0x1_0000
    }
  }

  const ERROR_NOSUBSTRING := -7
  const ERR43 := 43    // two named groups have the same name

  // ----- the order of strcmp -----

  /** How many bytes two strings have in common at the front. */
  function Common(a: seq<byte>, b: seq<byte>): (k: nat)
    ensures k <= |a| && k <= |b| && a[..k] == b[..k]
    ensures k < |a| && k < |b| ==> a[k] != b[k]
    decreases |a|
  {
    if a == [] || b == [] || a[0] != b[0] then 0 else
    var k := Common(a[1..], b[1..]);
    assert a[..k + 1] == [a[0]] + a[1..][..k] && b[..k + 1] == [b[0]] + b[1..][..k];
    k + 1
  }

  predicate Less(a: seq<byte>, b: seq<byte>) {
    var k := Common(a, b);
    k < |b| && (k == |a| || a[k] < b[k])
  }

  lemma CommonIs(a: seq<byte>, b: seq<byte>, k: nat)
    requires k <= |a| && k <= |b| && a[..k] == b[..k] && (k == |a| || k == |b| || a[k] != b[k])
    ensures Common(a, b) == k
  {
  }

  lemma Trichotomy(a: seq<byte>, b: seq<byte>)
    ensures a == b || Less(a, b) || Less(b, a)
    ensures !(Less(a, b) && Less(b, a)) && !Less(a, a)
  {
  }

  lemma Transitive(a: seq<byte>, b: seq<byte>, c: seq<byte>)
    requires Less(a, b) && Less(b, c)
    ensures Less(a, c)
  {
    var k, m := Common(a, b), Common(b, c);
    var n := if k < m then k else m;
    assert a[..n] == a[..k][..n] == b[..k][..n] == b[..n];
    assert b[..n] == b[..m][..n] == c[..m][..n] == c[..n];
    if k < m { assert b[..m][k] == b[k] && c[..m][k] == c[k]; }
    if m < k { assert a[..k][m] == a[m] && b[..k][m] == b[m]; }
    CommonIs(a, c, n);
  }

  ghost predicate Sorted(es: seq<Entry>) {
    forall i, j :: 0 <= i < j < |es| ==> Less(es[i].name, es[j].name)
  }

  // ----- the bytes of an entry -----

  function Text(e: Entry): seq<byte> {
    Put(e.number) + e.name + [0]
  }

  ghost predicate Holds(bytes: seq<byte>, at: nat, e: Entry) {
    at + |Text(e)| <= |bytes| && bytes[at..at + |Text(e)|] == Text(e)
  }

  lemma HoldsBytes(bytes: seq<byte>, at: nat, e: Entry)
    requires Holds(bytes, at, e)
    ensures bytes[at..at + 2] == Put(e.number) && bytes[at + 2 + |e.name|] == 0
    ensures forall i :: 0 <= i < |e.name| ==> bytes[at + 2 + i] == e.name[i]
  {
    var t := bytes[at..at + |Text(e)|];
    assert forall i :: 0 <= i < |t| ==> t[i] == Text(e)[i];
    assert bytes[at..at + 2] == t[..2];
  }

  lemma StoredText(bytes: seq<byte>, at: nat, e: Entry)
    requires at + |e.name| + 3 <= |bytes| && bytes[at..at + 2] == Put(e.number) && bytes[at + 2 + |e.name|] == 0
    requires forall j :: 0 <= j < |e.name| ==> bytes[at + 2 + j] == e.name[j]
    ensures Holds(bytes, at, e)
  {
    var n := |e.name|;
    assert bytes[at + 2..at + 2 + n] == e.name;
    assert bytes[at..at + 3 + n] == bytes[at..at + 2] + bytes[at + 2..at + 2 + n] + [bytes[at + 2 + n]];
  }

  /** An entry is still held where a stretch of bytes around it has been moved to. */
  lemma HoldsMoved(was: seq<byte>, from: nat, now: seq<byte>, to: nat, n: nat, d: nat, e: Entry)
    requires from + n <= |was| && to + n <= |now| && now[to..to + n] == was[from..from + n]
    requires Holds(was, from + d, e) && d + |Text(e)| <= n
    ensures Holds(now, to + d, e)
  {
    hide Text;
    var k := |Text(e)|;
    Within(was, from, n, d, k);
    Within(now, to, n, d, k);
  }

  lemma Within(s: seq<byte>, at: nat, n: nat, d: nat, k: nat)
    requires at + n <= |s| && d + k <= n
    ensures s[at + d..(at + d) + k] == s[at..at + n][d..d + k]
  {
    var a, b := s[at + d..(at + d) + k], s[at..at + n][d..d + k];
    forall i | 0 <= i < k ensures a[i] == b[i] { assert a[i] == s[at + d + i]; assert b[i] == s[at..at + n][d + i]; }
    assert a == b;
  }

  /**
   * Where a name first differs from the zero-terminated name at the front of `text`, the two bytes
   * order the names.
   */
  lemma Differs(name: seq<byte>, e: seq<byte>, text: seq<byte>, k: nat)
    requires 0 !in name && |e| < |text| && text[..|e|] == e && text[|e|] == 0
    requires k < |name| && k < |text| && text[..k] == name[..k]
    ensures name[k] < text[k] ==> Less(name, e)
    ensures name[k] > text[k] ==> Less(e, name)
  {
    hide Common;
    forall i | 0 <= i < |e| ensures text[i] == e[i] { assert text[..|e|][i] == e[i]; }
    forall i | 0 <= i < k ensures text[i] == name[i] { assert text[..k][i] == name[..k][i]; }
    assert forall i :: 0 <= i < |name| ==> name[i] != 0;
    assert k <= |e|;
    if name[k] != text[k] {
      assert e[..k] == name[..k];
      CommonIs(name, e, k);
      CommonIs(e, name, k);
    }
  }

  /** Where all of a name agrees with `text`, the name is there exactly if a zero follows, and is a proper prefix if not. */
  lemma Agrees(name: seq<byte>, e: seq<byte>, text: seq<byte>)
    requires 0 !in name && 0 !in e && |e| < |text| && text[..|e|] == e && text[|e|] == 0
    requires |name| < |text| && text[..|name|] == name
    ensures text[|name|] == 0 <==> name == e
    ensures name != e ==> Less(name, e)
  {
  }

  /** The name of a held entry, with its final zero, is at the front of any stretch of bytes that starts behind the number. */
  lemma NameText(bytes: seq<byte>, at: nat, e: Entry, end: nat)
    requires Holds(bytes, at, e) && at + |Text(e)| <= end <= |bytes|
    ensures var text := bytes[at + 2..end]; |e.name| < |text| && text[..|e.name|] == e.name && text[|e.name|] == 0
  {
    HoldsBytes(bytes, at, e);
    var text := bytes[at + 2..end];
    forall i | 0 <= i < |e.name| ensures text[i] == e.name[i] { assert text[i] == bytes[at + 2 + i]; }
    assert text[..|e.name|] == e.name;
  }

  // ----- where a new entry goes -----

  /** The names before position `i` are less than the name, and those from there on are greater. */
  ghost predicate Between(es: seq<Entry>, i: nat, name: seq<byte>) {
    && i <= |es|
    && (forall j :: 0 <= j < i ==> Less(es[j].name, name))
    && forall j :: i <= j < |es| ==> Less(name, es[j].name)
  }

  lemma InsertedSorted(es: seq<Entry>, i: nat, e: Entry)
    requires Sorted(es) && Between(es, i, e.name)
    ensures Sorted(es[..i] + [e] + es[i..])
  {
  }

  /** In a sorted table, one name in its place puts all the later ones in theirs. */
  lemma FromHere(es: seq<Entry>, i: nat, name: seq<byte>)
    requires Sorted(es) && i < |es| && Less(name, es[i].name)
    ensures forall j :: i <= j < |es| ==> Less(name, es[j].name)
  {
    hide Less;
    forall j | i < j < |es| ensures Less(name, es[j].name) { Transitive(name, es[i].name, es[j].name); }
  }

  lemma UpToHere(es: seq<Entry>, i: nat, name: seq<byte>)
    requires Sorted(es) && i < |es| && Less(es[i].name, name)
    ensures forall j :: 0 <= j <= i ==> Less(es[j].name, name)
  {
    hide Less;
    forall j | 0 <= j < i ensures Less(es[j].name, name) { Transitive(es[j].name, es[i].name, name); }
  }

  lemma {:induction false} SlotBefore(i: nat, j: nat, size: nat)
    requires i < j
    ensures i * size + size <= j * size
    decreases j
  {
    if i + 1 < j { SlotBefore(i, j - 1, size); }
  }

  /** No two entries have the same name. */
  ghost predicate Distinct(es: seq<Entry>) {
    forall i, j :: 0 <= i < j < |es| ==> es[i].name != es[j].name
  }

  lemma NoneDefined(groups: seq<Entry>)
    ensures groups[..0] == [] && Distinct(groups[..0])
  {
  }

  lemma Repeated(groups: seq<Entry>, k: nat, es: seq<Entry>)
    requires k < |groups| && multiset(es) == multiset(groups[..k]) && exists e :: e in es && e.name == groups[k].name
    ensures !Distinct(groups)
  {
    var e :| e in es && e.name == groups[k].name;
    SameMembers(es, groups[..k]);
    var i :| 0 <= i < k && groups[..k][i] == e;
    assert groups[i].name == groups[k].name;
  }

  lemma OneDefined(groups: seq<Entry>, k: nat, es: seq<Entry>, at: nat, now: seq<Entry>)
    requires k < |groups| && multiset(es) == multiset(groups[..k]) && Distinct(groups[..k]) && at <= |es|
    requires now == es[..at] + [Entry(groups[k].name, groups[k].number)] + es[at..]
    requires forall e :: e in es ==> e.name != groups[k].name
    ensures Distinct(groups[..k + 1]) && multiset(now) == multiset(groups[..k + 1])
  {
    assert groups[..k + 1] == groups[..k] + [groups[k]];
    assert es == es[..at] + es[at..];
    SameMembers(es, groups[..k]);
    forall i | 0 <= i < k ensures groups[i].name != groups[k].name { assert groups[..k][i] in es; }
  }

  lemma SameMembers(a: seq<Entry>, b: seq<Entry>)
    requires multiset(a) == multiset(b)
    ensures forall e :: e in a <==> e in b
  {
    forall e ensures e in a <==> e in b { assert e in multiset(a) <==> e in multiset(b); }
  }

  lemma SlotsMoved(i: nat, n: nat, size: nat)
    requires i <= n
    ensures i * size + (n - i) * size == n * size && n * size + size == (n + 1) * size
  {
  }

  lemma Stored(s: seq<byte>, at: nat, end: nat, b: byte)
    requires at < end <= |s|
    ensures s[at := b][at..end] == [b] + s[at + 1..end]
  {
  }

  lemma Behind(a: seq<byte>, b: seq<byte>, at: nat, from: nat, to: nat)
    requires at <= from <= to <= |a| == |b| && a[at..] == b[at..]
    ensures a[from..to] == b[from..to]
  {
  }

  class Names {
    const table: array<byte>
    const entrySize: nat
    var found: nat
    ghost var entries: seq<Entry>

    /** Every slot holds its entry, and the names are in strictly increasing order. */
    ghost predicate Valid()
      reads this, table
    {
      && |entries| == found && found * entrySize <= table.Length && Sorted(entries)
      && forall i :: 0 <= i < found ==> Slot(table[..], i, entries[i])
    }

    ghost predicate Slot(bytes: seq<byte>, i: nat, e: Entry) {
      e.Valid() && |e.name| + 3 <= entrySize && Holds(bytes, i * entrySize, e)
    }

    constructor (table: array<byte>, entrySize: nat)
      ensures this.table == table && this.entrySize == entrySize && Valid() && entries == []
    {
      this.table, this.entrySize, found, entries := table, entrySize, 0, [];
    }

    /** memcmp of a name with the bytes at `at`: `same` bytes agree, and the next decides the sign. */
    method Memcmp(name: seq<byte>, at: nat) returns (crc: int, ghost same: nat)
      requires at + |name| <= table.Length
      ensures same <= |name| && table[at..at + same] == name[..same]
      ensures crc == 0 <==> same == |name|
      ensures crc < 0 ==> name[same] < table[at + same]
      ensures crc > 0 ==> name[same] > table[at + same]
    {
      var k := 0;
      while k < |name|
        invariant 0 <= k <= |name| && table[at..at + k] == name[..k]
      {
        if name[k] != table[at + k] {
          return if name[k] < table[at + k] then -1 else 1, k;
        }
        k := k + 1;
      }
      return 0, k;
    }

    /** strcmp of a name with the one in slot `i`. */
    method Strcmp(name: seq<byte>, i: nat) returns (c: int)
      requires Valid() && i < found && 0 !in name
      ensures c == 0 <==> name == entries[i].name
      ensures c < 0 <==> Less(name, entries[i].name)
      ensures c > 0 <==> Less(entries[i].name, name)
    {
      hide Less, Sorted;
      var at := i * entrySize + 2;
      ghost var e := entries[i].name;
      ghost var end := at + |e| + 1;
      SlotBefore(i, found, entrySize);
      assert Slot(table[..], i, entries[i]);
      NameText(table[..], i * entrySize, entries[i], end);
      ghost var text := table[..][at..end];
      var k := 0;
      while k < |name| && name[k] == table[at + k]
        invariant 0 <= k <= |name| && k <= |e| && text[..k] == name[..k]
      {
        assert text[k] == table[at + k] && name[k] in name;
        assert text[..k + 1] == text[..k] + [text[k]] && name[..k + 1] == name[..k] + [name[k]];
        k := k + 1;
      }
      assert text[k] == table[at + k];
      Trichotomy(name, e);
      if k == |name| {
        Agrees(name, e, text);
        c := if table[at + k] == 0 then 0 else -1;
      } else {
        Differs(name, e, text, k);
        c := if name[k] < table[at + k] then -1 else 1;
      }
    }

    /** The number recorded for a name, or NOSUBSTRING exactly when there is none. */
    method GetStringNumber(name: seq<byte>) returns (rc: int)
      requires Valid() && 0 !in name
      ensures forall e :: e in entries && e.name == name ==> rc == e.number
      ensures rc != ERROR_NOSUBSTRING <==> exists e :: e in entries && e.name == name
    {
      hide Less;
      var bot, top := 0, found;
      while top > bot
        invariant 0 <= bot <= top <= found
        invariant forall i :: 0 <= i < bot ==> Less(entries[i].name, name)
        invariant forall i :: top <= i < found ==> Less(name, entries[i].name)
      {
        var mid := (top + bot) / 2;
        var c := Strcmp(name, mid);
        if c == 0 {
          rc := Number(mid);
          OnlyHere(mid);
          return;
        }
        if c > 0 {
          UpToHere(entries, mid, name);
          bot := mid + 1;
        } else {
          FromHere(entries, mid, name);
          top := mid;
        }
      }
      Trichotomy(name, name);
      return ERROR_NOSUBSTRING;
    }

    /** memmove of `count` bytes up by one slot. */
    method MoveUp(slot: nat, count: nat)
      requires slot + entrySize + count <= table.Length
      modifies table
      ensures table[..slot] == old(table[..slot])
      ensures table[slot + entrySize..slot + entrySize + count] == old(table[slot..slot + count])
    {
      ghost var was := table[..];
      var k := count;
      while k > 0
        invariant 0 <= k <= count
        invariant forall j :: 0 <= j < slot + k ==> table[j] == was[j]
        invariant table[slot + entrySize + k..slot + entrySize + count] == was[slot + k..slot + count]
      {
        k := k - 1;
        ghost var before := table[..];
        table[slot + entrySize + k] := table[slot + k];
        Stored(before, slot + entrySize + k, slot + entrySize + count, was[slot + k]);
        Stored(was, slot + k, slot + count, was[slot + k]);
        assert table[..] == before[slot + entrySize + k := was[slot + k]];
      }
      assert table[..slot] == was[..slot];
    }

    /** PUT2 of the number, memcpy of the name, and the final zero. */
    method Store(slot: nat, e: Entry)
      requires slot + |e.name| + 3 <= table.Length && e.Valid()
      modifies table
      ensures table[..slot] == old(table[..slot])
      ensures table[slot + |e.name| + 3..] == old(table[slot + |e.name| + 3..])
      ensures Holds(table[..], slot, e)
    {
      hide Text, Holds;
      table[slot], table[slot + 1] := e.number / 256 % 256, e.number % 256;
      var k := 0;
      while k < |e.name|
        invariant 0 <= k <= |e.name|
        invariant forall j :: 0 <= j < slot ==> table[j] == old(table[j])
        invariant forall j :: slot + |e.name| + 3 <= j < table.Length ==> table[j] == old(table[j])
        invariant table[slot..slot + 2] == Put(e.number)
        invariant forall j :: 0 <= j < k ==> table[slot + 2 + j] == e.name[j]
      {
        table[slot + 2 + k] := e.name[k];
        k := k + 1;
      }
      table[slot + 2 + k] := 0;
      ghost var now := table[..];
      assert now[slot..slot + 2] == table[slot..slot + 2] == Put(e.number);
      StoredText(now, slot, e);
    }

    /** The entries are where they belong after the later ones moved up and the new one was stored. */
    lemma SlotsAfter(was: seq<byte>, now: seq<byte>, es: seq<Entry>, i: nat, e: Entry)
      requires i <= |es| && (|es| + 1) * entrySize <= |was| == |now|
      requires forall j :: 0 <= j < |es| ==> Slot(was, j, es[j])
      requires i * entrySize <= |es| * entrySize
      requires now[..i * entrySize] == was[..i * entrySize]
      requires Slot(now, i, e)
      requires now[i * entrySize + entrySize..|es| * entrySize + entrySize] == was[i * entrySize..|es| * entrySize]
      ensures forall j :: 0 <= j <= |es| ==> Slot(now, j, (es[..i] + [e] + es[i..])[j])
    {
      hide Less, Sorted, Holds, Slot;
      var n := es[..i] + [e] + es[i..];
      forall j | 0 <= j <= |es| ensures Slot(now, j, n[j]) {
        if j < i {
          assert n[j] == es[j];
          SlotKept(was, now, i, j, es[j]);
        } else if j > i {
          assert n[j] == es[j - 1];
          SlotMoved(was, now, |es|, i, j - 1, es[j - 1]);
        }
      }
    }

    lemma SlotKept(was: seq<byte>, now: seq<byte>, i: nat, j: nat, e: Entry)
      requires j < i && i * entrySize <= |was| && i * entrySize <= |now|
      requires now[..i * entrySize] == was[..i * entrySize]
      requires Slot(was, j, e)
      ensures Slot(now, j, e)
    {
      hide Holds;
      var at, d := i * entrySize, j * entrySize;
      SlotBefore(j, i, entrySize);
      assert was[..at] == was[0..0 + at] && now[..at] == now[0..0 + at];
      HoldsMoved(was, 0, now, 0, at, d, e);
    }

    lemma SlotMoved(was: seq<byte>, now: seq<byte>, n: nat, i: nat, j: nat, e: Entry)
      requires i <= j < n && i * entrySize <= n * entrySize && n * entrySize + entrySize <= |was| == |now|
      requires now[i * entrySize + entrySize..n * entrySize + entrySize] == was[i * entrySize..n * entrySize]
      requires Slot(was, j, e)
      ensures Slot(now, j + 1, e)
    {
      SlotsMoved(j, j, entrySize);
      SlotBefore(j, n, entrySize);
      if i < j { SlotBefore(i, j, entrySize); }
      Apart(was, now, i * entrySize, n * entrySize, j * entrySize, (j + 1) * entrySize, e);
    }

    lemma Apart(was: seq<byte>, now: seq<byte>, at: nat, end: nat, here: nat, there: nat, e: Entry)
      requires at <= here && here + entrySize <= end && there == here + entrySize && end + entrySize <= |was| == |now|
      requires now[at + entrySize..end + entrySize] == was[at..end]
      requires Holds(was, here, e) && |e.name| + 3 <= entrySize
      ensures Holds(now, there, e)
    {
      hide Holds;
      assert at + (end - at) == end && (at + entrySize) + (end - at) == end + entrySize;
      HoldsMoved(was, at, now, at + entrySize, end - at, here - at, e);
    }

    /** One round of the search for the place of a new name. */
    method Compare(name: seq<byte>, i: nat, slot: nat) returns (crc: int, present: bool)
      requires Valid() && i < found && slot == i * entrySize && 0 !in name && |name| + 3 <= entrySize
      ensures present <==> name == entries[i].name
      ensures !present && crc < 0 ==> Less(name, entries[i].name)
      ensures !present && crc >= 0 ==> Less(entries[i].name, name)
    {
      hide Less, Sorted, Holds;
      SlotBefore(i, found, entrySize);
      assert Slot(table[..], i, entries[i]);
      ghost var e := entries[i].name;
      ghost var text := table[..][slot + 2..slot + entrySize];
      NameText(table[..], slot, entries[i], slot + entrySize);
      Trichotomy(name, e);
      ghost var same;
      crc, same := Memcmp(name, slot + 2);
      assert text[..same] == table[slot + 2..slot + 2 + same];
      assert |text| == entrySize - 2 && |name| < |text|;
      if crc == 0 {
        Agrees(name, e, text);
        assert text[|name|] == table[slot + 2 + |name|];
        present := table[slot + 2 + |name|] == 0;
        crc := -1;
      } else {
          assert text[same] == table[slot + 2 + same];
        Differs(name, e, text, same);
        present := false;
      }
    }

    /**
     * The definition of a named group: the new name takes its place in the order, unless it is
     * there already.
     */
    method Insert(name: seq<byte>, number: nat) returns (err: nat, ghost at: nat)
      requires Valid() && Entry(name, number).Valid() && |name| + 3 <= entrySize
      requires (found + 1) * entrySize <= table.Length
      modifies this`found, this`entries, table
      ensures Valid()
      ensures err == 0 || err == ERR43
      ensures err == ERR43 <==> exists e :: e in old(entries) && e.name == name
      ensures err == ERR43 ==> entries == old(entries) && found == old(found) && table[..] == old(table[..])
      ensures err == 0 ==> at <= |old(entries)| && found == old(found) + 1
      ensures err == 0 ==> entries == old(entries)[..at] + [Entry(name, number)] + old(entries)[at..]
    {
      hide Less, Sorted, Holds;
      var i, slot := 0, 0;
      while i < found
        invariant 0 <= i <= found && slot == i * entrySize
        invariant Valid() && entries == old(entries) && found == old(found) && table[..] == old(table[..])
        invariant forall j :: 0 <= j < i ==> Less(entries[j].name, name)
      {
        var crc, present := Compare(name, i, slot);
        if present {
          return ERR43, 0;
        }
        if crc < 0 {
          FromHere(entries, i, name);
          break;
        }
        i, slot := i + 1, slot + entrySize;
      }
      assert Between(entries, i, name);
      Absent(i, name);
      Place(i, name, number);
      return 0, i;
    }

    lemma Absent(i: nat, name: seq<byte>)
      requires Between(entries, i, name)
      ensures forall e :: e in entries ==> e.name != name
    {
    }

    /** Room is made at position `i` and the entry is stored there. */
    method Place(i: nat, name: seq<byte>, number: nat)
      requires Valid() && Entry(name, number).Valid() && |name| + 3 <= entrySize
      requires (found + 1) * entrySize <= table.Length && Between(entries, i, name)
      modifies this`found, this`entries, table
      ensures Valid() && found == old(found) + 1
      ensures entries == old(entries)[..i] + [Entry(name, number)] + old(entries)[i..]
    {
      hide Less, Sorted, Holds;
      var slot, e := i * entrySize, Entry(name, number);
      ghost var es, was := entries, table[..];
      InsertedSorted(es, i, e);
      var count := (found - i) * entrySize;
      ghost var end := found * entrySize;
      SlotsMoved(i, found, entrySize);
      assert slot + count == end && end + entrySize <= table.Length;
      MoveUp(slot, count);
      ghost var moved := table[..];
      Store(slot, e);
      ghost var now := table[..];
      Behind(moved, now, slot + |e.name| + 3, slot + entrySize, end + entrySize);
      SlotsAfter(was, now, es, i, e);
      entries, found := es[..i] + [e] + es[i..], found + 1;
    }

    lemma Count()
      requires Valid()
      ensures found == |entries|
    {
    }

    /** Any sequence of named groups: all of them are recorded if no name is repeated, and a repeated name is always rejected. */
    method DefineAll(groups: seq<Entry>) returns (err: nat)
      requires Valid() && entries == []
      requires forall g :: g in groups ==> g.Valid() && |g.name| + 3 <= entrySize
      requires |groups| * entrySize <= table.Length
      modifies this`found, this`entries, table
      ensures Valid()
      ensures err == 0 || err == ERR43
      ensures err == 0 <==> Distinct(groups)
      ensures err == 0 ==> multiset(entries) == multiset(groups)
    {
      hide Valid, Distinct;
      var k := 0;
      NoneDefined(groups);
      assert found == 0 by { Count(); }
      while k < |groups|
        invariant 0 <= k <= |groups| && Valid() && found == k
        invariant Distinct(groups[..k]) && multiset(entries) == multiset(groups[..k])
      {
        ghost var es := entries;
        if k + 1 < |groups| { SlotBefore(k + 1, |groups|, entrySize); }
        assert groups[k] in groups;
        ghost var at;
        err, at := Insert(groups[k].name, groups[k].number);
        if err != 0 {
          Repeated(groups, k, es);
          return;
        }
        OneDefined(groups, k, es, at, entries);
        k := k + 1;
      }
      assert groups[..k] == groups;
      err := 0;
    }

    method Number(i: nat) returns (n: nat)
      requires Valid() && i < found
      ensures n == entries[i].number
    {
      hide Less, Sorted;
      ghost var at := i * entrySize;
      SlotBefore(i, found, entrySize);
      assert Slot(table[..], i, entries[i]);
      HoldsBytes(table[..], at, entries[i]);
      assert table[at..at + 2] == table[..][at..at + 2];
      assert table[at] == Put(entries[i].number)[0] && table[at + 1] == Put(entries[i].number)[1];
      n := table[i * entrySize] as nat * 256 + table[i * entrySize + 1] as nat;
    }

    /** No other entry has the same name. */
    lemma OnlyHere(i: nat)
      requires Valid() && i < found
      ensures forall e :: e in entries && e.name == entries[i].name ==> e == entries[i]
    {
    }
  }
}
