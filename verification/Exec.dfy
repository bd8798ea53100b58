/**
 * pcre_exec: the scan over start positions, with everything that lets it skip some of them,
 * against trying `match` at every one.
 */
module Exec {
  import opened Wrappers
  import opened Bytes
  import opened Subject
  import opened Regex
  import opened Program
  import opened Lower
  import opened Machine
  import opened Layout
  import opened Slots
  import opened Numbering
  import opened Correct
  import opened Anchor
  import opened Earlier
  import opened Pattern
  import opened Matcher
  import opened CodeText
  import opened Trails
  import opened Leads
  import opened Stuck

  const ERROR_NOMATCH := -1
  const REQ_BYTE_MAX := 1000

  /** `match` at `i` finds something; under NOTEMPTY it must not be empty. */
  ghost predicate Hits(E: Env, alts: Alts, notempty: bool, i: nat)
    requires ValidAlts(alts)
  {
    i <= |E.s| && Attempt(E, alts, VetoAt(notempty, i), i).Some?
  }

  /** `i` is the first of the positions from `from` on at which `match` finds something. */
  ghost predicate FirstHit(E: Env, alts: Alts, notempty: bool, from: nat, i: nat)
    requires ValidAlts(alts)
  {
    from <= i && Hits(E, alts, notempty, i) && NoneBefore(E, alts, notempty, from, i)
  }

  ghost predicate NoneBefore(E: Env, alts: Alts, notempty: bool, from: nat, start: nat)
    requires ValidAlts(alts)
  {
    forall m: nat :: from <= m < start ==> !Hits(E, alts, notempty, m)
  }

  ghost predicate NoHit(E: Env, alts: Alts, notempty: bool, from: nat)
    requires ValidAlts(alts)
  {
    forall m: nat :: from <= m <= |E.s| ==> !Hits(E, alts, notempty, m)
  }

  /** The attempt at `i` reaches the end of a group that has no room in the vector. */
  ghost predicate Closes(E: Env, alts: Alts, notempty: bool, room: nat, i: nat)
    requires ValidAlts(alts)
  {
    i <= |E.s| && exists n :: n in AttemptTrack(E, alts, VetoAt(notempty, i), i).closed && n >= room
  }

  ghost predicate ClosesBefore(E: Env, alts: Alts, notempty: bool, room: nat, from: nat, to: nat)
    requires ValidAlts(alts)
  {
    exists m: nat :: from <= m < to && Closes(E, alts, notempty, room, m)
  }

  /** The attempt at `i` stays within the limit of calls. */
  ghost predicate Affordable(E: Env, alts: Alts, notempty: bool, limit: Option<nat>, i: nat)
    requires ValidAlts(alts) && i <= |E.s|
  {
    limit.Some? ==> AttemptTrack(E, alts, VetoAt(notempty, i), i).calls <= limit.value
  }

  /**
   * Each match is not empty and begins with a byte of the map that study made. Elsewhere an
   * attempt does not even reach the end of a group.
   */
  ghost predicate StudyOk(E: Env, alts: Alts, bits: seq<byte>)
    requires ValidAlts(alts)
  {
    |bits| == 32 &&
    (forall i: nat, j: nat :: i <= |E.s| && LangAlts(E, alts, i, j) ==> i < j <= |E.s| && InMap(bits, E.s[i])) &&
    forall i: nat, veto: int :: i < |E.s| && !InMap(bits, E.s[i]) ==> AttemptTrack(E, alts, veto, i).closed == {}
  }

  lemma HitSpan(E: Env, alts: Alts, notempty: bool, i: nat) returns (j: nat)
    requires ValidAlts(alts) && Hits(E, alts, notempty, i)
    ensures LangAlts(E, alts, i, j) && i <= j <= |E.s| && (notempty ==> j != i)
  {
    var veto := VetoAt(notempty, i);
    AttemptSound(E, alts, veto, i);
    j := Attempt(E, alts, veto, i).value.pos;
  }

  /** A match that the pattern's beginning allows to extend to the left begins there too. */
  lemma HitBack(E: Env, alts: Alts, notempty: bool, anchored: bool, i: nat)
    requires ValidAlts(alts) && RepeatableAlts(alts) && BeginsAlts(E.opt, anchored, alts)
    requires Backs(E, anchored, i) && Hits(E, alts, notempty, i)
    ensures Hits(E, alts, notempty, i - 1)
  {
    hide Attempt;
    AttemptBack(E, alts, anchored, notempty, i);
  }

  /** An anchored pattern that does not match at `from` does not match later. */
  lemma {:induction false} AnchoredMiss(E: Env, alts: Alts, notempty: bool, from: nat, i: nat)
    requires ValidAlts(alts) && RepeatableAlts(alts) && BeginsAlts(E.opt, true, alts)
    requires from <= i <= |E.s| && !Hits(E, alts, notempty, from)
    ensures !Hits(E, alts, notempty, i)
    decreases i
  {
    if from < i {
      AnchoredMiss(E, alts, notempty, from, i - 1);
      if Hits(E, alts, notempty, i) { HitBack(E, alts, notempty, true, i); }
    }
  }

  /** Every match from `start` on has the required byte at or after `p`. */
  lemma ReqThere(re: Pcre, alts: Alts, forced: bool, E: Env, notempty: bool, start: nat, p: nat, i: nat) returns (k: nat)
    requires Describes(re, alts, forced) && E.opt == re.opt && E.tab == re.tab && re.tab.CaseConsistent()
    requires re.req.Some? && start <= p <= start + (if re.first.Some? then 1 else 0) && start <= i && Hits(E, alts, notempty, i)
    ensures p <= k < |E.s| && ReqMatches(re.tab, re.req.value, E.s[k])
  {
    var j := HitSpan(E, alts, notempty, i);
    BytesSound(re, alts, forced, E, i, j);
    k :| i <= k < j <= |E.s| && ReqMatches(re.tab, re.req.value, E.s[k]) && (re.first.Some? ==> i < k);
  }

  lemma ReqMiss(re: Pcre, alts: Alts, forced: bool, E: Env, notempty: bool, start: nat, p: nat)
    requires Describes(re, alts, forced) && E.opt == re.opt && E.tab == re.tab && re.tab.CaseConsistent()
    requires re.req.Some? && start <= p <= start + if re.first.Some? then 1 else 0
    requires forall k :: p <= k < |E.s| ==> !ReqMatches(re.tab, re.req.value, E.s[k])
    ensures NoHit(E, alts, notempty, start)
  {
    forall i: nat | start <= i <= |E.s|
      ensures !Hits(E, alts, notempty, i)
    {
      if Hits(E, alts, notempty, i) {
        var k := ReqThere(re, alts, forced, E, notempty, start, p, i);
      }
    }
  }

  lemma FirstMiss(re: Pcre, alts: Alts, forced: bool, E: Env, notempty: bool, i: nat)
    requires Describes(re, alts, forced) && E.opt == re.opt && E.tab == re.tab && re.tab.CaseConsistent()
    requires re.first.Some? && i < |E.s| && !FirstMatches(re.tab, re.first.value, E.s[i])
    ensures !Hits(E, alts, notempty, i)
  {
    if Hits(E, alts, notempty, i) {
      var j := HitSpan(E, alts, notempty, i);
      BytesSound(re, alts, forced, E, i, j);
    }
  }

  /** Where the first byte is missing, nothing at all happens. */
  lemma FirstStuck(re: Pcre, alts: Alts, forced: bool, E: Env, notempty: bool, room: nat, i: nat)
    requires Known(re, E, alts, forced) && re.first.Some? && i < |E.s| && !FirstMatches(re.tab, re.first.value, E.s[i])
    ensures ValidAlts(alts) && !Closes(E, alts, notempty, room, i)
  {
    hide Attempt, LeadsAlts, StuckChoice, LowerAlts;
    var c := re.first.value.c;
    WhatIsRecorded(re, alts, forced, c);
    if SameByte(E, c, E.s[i]) { LikeFirst(E, Hints.Known(c, E.opt.caseless, false), E.s[i]); }
    AltsStuck(E, alts, c, i);
    AttemptStops(E, alts, VetoAt(notempty, i), i);
  }

  lemma StudyMiss(E: Env, alts: Alts, notempty: bool, bits: seq<byte>, i: nat)
    requires ValidAlts(alts) && StudyOk(E, alts, bits) && i < |E.s| && !InMap(bits, E.s[i])
    ensures !Hits(E, alts, notempty, i)
  {
    if Hits(E, alts, notempty, i) {
      var j := HitSpan(E, alts, notempty, i);
    }
  }

  lemma StudyStuck(E: Env, alts: Alts, notempty: bool, bits: seq<byte>, room: nat, i: nat)
    requires ValidAlts(alts) && StudyOk(E, alts, bits) && i < |E.s| && !InMap(bits, E.s[i])
    ensures !Closes(E, alts, notempty, room, i)
  {
  }

  lemma StartlineMiss(E: Env, alts: Alts, notempty: bool, i: nat)
    requires ValidAlts(alts) && RepeatableAlts(alts) && BeginsAlts(E.opt, false, alts)
    requires 0 < i <= |E.s| && E.s[i - 1] != NEWLINE && !Hits(E, alts, notempty, i - 1)
    ensures !Hits(E, alts, notempty, i)
  {
    if Hits(E, alts, notempty, i) { HitBack(E, alts, notempty, false, i); }
  }

  /** What is skipped on the way to a line start closes no group that the attempts before did not. */
  lemma StartlineStuck(E: Env, alts: Alts, notempty: bool, room: nat, i: nat)
    requires ValidAlts(alts) && RepeatableAlts(alts) && BeginsAlts(E.opt, false, alts)
    requires 0 < i <= |E.s| && E.s[i - 1] != NEWLINE && !Hits(E, alts, notempty, i - 1)
    ensures Closes(E, alts, notempty, room, i) ==> Closes(E, alts, notempty, room, i - 1)
  {
    hide Attempt, AttemptTrack;
    ClosedBack(E, alts, false, notempty, i);
  }

  // ----- the scan -----

  lemma OneMore(E: Env, alts: Alts, notempty: bool, from: nat, start: nat)
    requires ValidAlts(alts) && NoneBefore(E, alts, notempty, from, start) && !Hits(E, alts, notempty, start)
    ensures NoneBefore(E, alts, notempty, from, start + 1)
  {
  }

  lemma OneMoreCloses(E: Env, alts: Alts, notempty: bool, room: nat, from: nat, start: nat)
    requires ValidAlts(alts) && from <= start
    ensures ClosesBefore(E, alts, notempty, room, from, start + 1) <==>
              ClosesBefore(E, alts, notempty, room, from, start) || Closes(E, alts, notempty, room, start)
  {
    hide Closes;
  }

  lemma ClosedAlready(E: Env, alts: Alts, notempty: bool, room: nat, from: nat, start: nat)
    requires ValidAlts(alts) && from < start && Closes(E, alts, notempty, room, start - 1)
    ensures ClosesBefore(E, alts, notempty, room, from, start)
  {
    hide Closes;
  }

  /** Everything the scan knows about the pattern, for a subject. */
  ghost predicate Known(re: Pcre, E: Env, alts: Alts, forced: bool) {
    Describes(re, alts, forced) && E.opt == re.opt && E.tab == re.tab && re.tab.CaseConsistent()
  }

  method AdvanceFirst(re: Pcre, E: Env, from: nat, start0: nat, ghost alts: Alts, ghost forced: bool, ghost notempty: bool, ghost room: nat) returns (start: nat)
    requires Known(re, E, alts, forced) && re.first.Some?
    requires from <= start0 <= |E.s| && NoneBefore(E, alts, notempty, from, start0)
    ensures start0 <= start <= |E.s| && NoneBefore(E, alts, notempty, from, start)
    ensures ClosesBefore(E, alts, notempty, room, from, start) <==> ClosesBefore(E, alts, notempty, room, from, start0)
  {
    hide Hits, NoneBefore, Closes, ClosesBefore, Describes;
    WhatDescribes(re, alts, forced);
    start := start0;
    while start < |E.s| && !FirstMatches(re.tab, re.first.value, E.s[start])
      invariant start0 <= start <= |E.s| && NoneBefore(E, alts, notempty, from, start)
      invariant ClosesBefore(E, alts, notempty, room, from, start) <==> ClosesBefore(E, alts, notempty, room, from, start0)
    {
      FirstStuck(re, alts, forced, E, notempty, room, start);
      OneMoreCloses(E, alts, notempty, room, from, start);
      FirstMiss(re, alts, forced, E, notempty, start);
      OneMore(E, alts, notempty, from, start);
      start := start + 1;
    }
  }

  /** The first attempt, at `from`, is made wherever that is. */
  method AdvanceLine(E: Env, from: nat, start0: nat, ghost alts: Alts, ghost notempty: bool, ghost room: nat) returns (start: nat)
    requires ValidAlts(alts) && RepeatableAlts(alts) && BeginsAlts(E.opt, false, alts)
    requires from <= start0 <= |E.s| && NoneBefore(E, alts, notempty, from, start0)
    ensures start0 <= start <= |E.s| && NoneBefore(E, alts, notempty, from, start)
    ensures ClosesBefore(E, alts, notempty, room, from, start) <==> ClosesBefore(E, alts, notempty, room, from, start0)
    ensures start0 == from ==> start == from
  {
    hide Hits, NoneBefore, Closes, ClosesBefore;
    start := start0;
    if start > from {
      while start < |E.s| && E.s[start - 1] != NEWLINE
        invariant from < start <= |E.s| && start0 <= start && NoneBefore(E, alts, notempty, from, start)
        invariant ClosesBefore(E, alts, notempty, room, from, start) <==> ClosesBefore(E, alts, notempty, room, from, start0)
      {
        PreviousMiss(E, alts, notempty, from, start);
        StartlineStuck(E, alts, notempty, room, start);
        if Closes(E, alts, notempty, room, start) { ClosedAlready(E, alts, notempty, room, from, start); }
        OneMoreCloses(E, alts, notempty, room, from, start);
        StartlineMiss(E, alts, notempty, start);
        OneMore(E, alts, notempty, from, start);
        start := start + 1;
      }
    }
  }

  method AdvanceStudy(E: Env, bits: seq<byte>, from: nat, start0: nat, ghost alts: Alts, ghost notempty: bool, ghost room: nat) returns (start: nat)
    requires ValidAlts(alts) && StudyOk(E, alts, bits)
    requires from <= start0 <= |E.s| && NoneBefore(E, alts, notempty, from, start0)
    ensures start0 <= start <= |E.s| && NoneBefore(E, alts, notempty, from, start)
    ensures ClosesBefore(E, alts, notempty, room, from, start) <==> ClosesBefore(E, alts, notempty, room, from, start0)
  {
    hide Hits, NoneBefore, Closes, ClosesBefore;
    start := start0;
    while start < |E.s| && !InMap(bits, E.s[start])
      invariant start0 <= start <= |E.s| && NoneBefore(E, alts, notempty, from, start)
      invariant ClosesBefore(E, alts, notempty, room, from, start) <==> ClosesBefore(E, alts, notempty, room, from, start0)
    {
      StudyStuck(E, alts, notempty, bits, room, start);
      OneMoreCloses(E, alts, notempty, room, from, start);
      StudyMiss(E, alts, notempty, bits, start);
      OneMore(E, alts, notempty, from, start);
      start := start + 1;
    }
  }

  /** Advances over positions that the fixed first byte, a line start or the study map rules out. */
  method Advance(re: Pcre, E: Env, firstByte: Option<FixedByte>, startBits: Option<seq<byte>>, from: nat, start0: nat,
                 ghost alts: Alts, ghost forced: bool, ghost notempty: bool, ghost room: nat)
    returns (start: nat)
    requires Known(re, E, alts, forced) && (firstByte.Some? ==> firstByte == re.first)
    requires startBits.Some? ==> StudyOk(E, alts, startBits.value)
    requires from <= start0 <= |E.s| && NoneBefore(E, alts, notempty, from, start0)
    ensures start0 <= start <= |E.s| && NoneBefore(E, alts, notempty, from, start)
    ensures ClosesBefore(E, alts, notempty, room, from, start) <==> ClosesBefore(E, alts, notempty, room, from, start0)
    ensures start0 == from && firstByte.None? && startBits.None? ==> start == from
  {
    hide Hits, NoneBefore, Closes, ClosesBefore, Describes, StudyOk;
    WhatDescribes(re, alts, forced);
    start := start0;
    if firstByte.Some? {
      start := AdvanceFirst(re, E, from, start, alts, forced, notempty, room);
    } else if re.startline {
      start := AdvanceLine(E, from, start, alts, notempty, room);
    } else if startBits.Some? {
      start := AdvanceStudy(E, startBits.value, from, start, alts, notempty, room);
    }
  }

  lemma PreviousMiss(E: Env, alts: Alts, notempty: bool, from: nat, start: nat)
    requires ValidAlts(alts) && from < start && NoneBefore(E, alts, notempty, from, start)
    ensures !Hits(E, alts, notempty, start - 1)
  {
  }

  /** Where the required byte next occurs at or after `p0`, or the end of the subject. */
  method FindRequired(re: Pcre, E: Env, p0: nat) returns (p: nat)
    requires re.req.Some? && E.tab == re.tab
    ensures p0 < |E.s| ==> p0 <= p <= |E.s|
    ensures p < |E.s| ==> ReqMatches(re.tab, re.req.value, E.s[p])
    ensures forall k :: p0 <= k < p && k < |E.s| ==> !ReqMatches(re.tab, re.req.value, E.s[k])
    ensures p0 >= |E.s| ==> p == p0
  {
    var reqByte, reqByte2 := re.req.value.c, re.tab.fcc[re.req.value.c];
    p := p0;
    while p < |E.s|
      invariant p0 < |E.s| ==> p0 <= p <= |E.s|
      invariant p0 >= |E.s| ==> p == p0
      invariant forall k :: p0 <= k < p && k < |E.s| ==> !ReqMatches(re.tab, re.req.value, E.s[k])
    {
      if E.s[p] == reqByte || (re.req.value.nocase && E.s[p] == reqByte2) { return; }
      p := p + 1;
    }
  }

  /** The pairs of the offset vector after a match: one for each group, -1 for those that took no part. */
  ghost predicate Filled(v: seq<int>, room: nat, topBracket: nat, caps: map<nat, (nat, nat)>) {
    2 * room <= |v| &&
    forall n: nat :: 1 <= n <= topBracket && n < room ==>
      if n in caps then v[2 * n] == caps[n].0 && v[2 * n + 1] == caps[n].1 else v[2 * n] == v[2 * n + 1] == -1
  }

  /**
   * What pcre_exec is to return: the outcome of `match` at the first position where it succeeds. The
   * call limit is reported only if an attempt goes beyond it, and no attempt that does is reported.
   */
  ghost predicate Result(rc: int, E: Env, alts: Alts, notempty: bool, once: bool, from: nat, v: seq<int>, count: nat, topBracket: nat,
                         limit: Option<nat>)
    requires ValidAlts(alts) && count <= |v| && from <= |E.s|
  {
    if rc == ERROR_NOMATCH then
      if once then !Hits(E, alts, notempty, from) else NoHit(E, alts, notempty, from)
    else if rc >= 0 then
      exists i: nat :: i <= |E.s| && FirstHit(E, alts, notempty, from, i) && (once ==> i == from) &&
        Affordable(E, alts, notempty, limit, i) && Reported(rc, E, alts, notempty, from, i, v, count, topBracket)
    else
      rc == ERROR_MATCHLIMIT &&
      exists i: nat :: from <= i <= |E.s| && NoneBefore(E, alts, notempty, from, i) && (once ==> i == from) &&
        !Affordable(E, alts, notempty, limit, i)
  }

  /**
   * `rc` is one more than the highest group that took part, or 0: exactly when the vector has no
   * pair at all, or one of the attempts up to this one came to the end of a group without a pair.
   */
  ghost predicate Reported(rc: int, E: Env, alts: Alts, notempty: bool, from: nat, i: nat, v: seq<int>, count: nat, topBracket: nat)
    requires ValidAlts(alts) && i <= |E.s| && count <= |v|
  {
    var res := Attempt(E, alts, VetoAt(notempty, i), i);
    res.Some? &&
    (rc == 0 <==> count < 2 || ClosesBefore(E, alts, notempty, count / 3, from, i + 1)) &&
    (rc == 0 ==> count < 2 || count / 3 <= topBracket) &&
    (rc > 0 ==> OffsetTop(2 * rc, res.value.caps, count / 3) && forall n :: n in res.value.caps ==> n < count / 3) &&
    (if count < 2 then rc == 0 else v[0] == i && v[1] == res.value.pos && Filled(v, count / 3, topBracket, res.value.caps))
  }

  // ----- one attempt -----

  lemma BeginPlaced(alts: Alts, veto: int)
    requires ValidAlts(alts) && ValidNode(LowerPattern(alts))
    ensures var code, k := CompiledPattern(alts), Begin(alts, veto); Placed(code, k) && Pc(code, k) == 0
  {
    hide EncNode;
    PatternValid(alts);
    UnitText(LowerPattern(alts));
    assert CompiledPattern(alts)[0..] == CompiledPattern(alts);
  }

  /** Calls `match` at `start`, with the pairs as `base` leaves them. */
  method Try(md: MatchData, start: nat, ghost alts: Alts) returns (rc: int)
    requires md.Valid() && ValidAlts(alts) && NumberedAlts(alts, 0) && ValidNode(LowerPattern(alts))
    requires md.code == CompiledPattern(alts) && start <= |md.E.s| && md.groups == AltsCount(alts) && md.Flagged(map[])
    modifies md, md.ov
    ensures rc == MATCH_MATCH || rc == MATCH_NOMATCH || (rc == ERROR_MATCHLIMIT && md.limit.Some?)
    ensures var res := Attempt(md.E, alts, VetoAt(md.notempty, start), start);
            && (rc == MATCH_NOMATCH ==> res == None)
            && (rc == MATCH_MATCH ==>
                  && res.Some? && md.endMatch == res.value.pos && OffsetTop(md.endTop, res.value.caps, md.room)
                  && Pairs(md.ov[..], old(md.ov[..]), {}, res.value.caps, md.room) && md.Flagged(res.value.caps))
    ensures rc == ERROR_MATCHLIMIT <==> !Affordable(md.E, alts, md.notempty, md.limit, start)
    ensures rc != ERROR_MATCHLIMIT ==> (md.overflow <==> old(md.overflow) || Closes(md.E, alts, md.notempty, md.room, start))
    ensures md.Flagged(map[])
    ensures rc == MATCH_NOMATCH ==> md.ov[..] == old(md.ov[..])
  {
    hide Run, Text, EncNode, CompiledPattern, Clean;
    ghost var veto: int := VetoAt(md.notempty, start);
    ghost var k, st, base := Begin(alts, veto), St(start, map[]), md.ov[..];
    md.startMatch := start;
    md.calls := 0;
    BeginPlaced(alts, veto);
    PatternClean(alts, veto);
    BeginFit(md.E, alts, veto, start);
    rc := md.Match(start, 0, 2, Null, true, k, st, base);
  }

  /** Sets the working slots of the vector to -1, from the top down. */
  method ResetWork(offsets: array<int>, offsetcount: nat, ocount: nat, resetcount: nat)
    requires ocount == offsetcount - offsetcount % 3 && offsetcount <= offsets.Length && resetcount <= offsetcount
    requires resetcount == 0 || 2 <= resetcount
    modifies offsets
    ensures forall i :: 0 <= i < offsets.Length ==>
              offsets[i] == if ocount - resetcount / 2 < i < ocount then -1 else old(offsets[i])
  {
    var iptr: int := ocount - 1;
    var iend: int := ocount - resetcount / 2 + 1;
    while iptr >= iend
      invariant iend - 1 <= iptr < ocount || (iptr == ocount - 1 && iend > ocount - 1)
      invariant forall i :: 0 <= i < offsets.Length ==> offsets[i] == if iptr < i < ocount then -1 else old(offsets[i])
    {
      offsets[iptr] := -1;
      iptr := iptr - 1;
    }
  }

  /** How much of the vector is used: a third of it is working space. */
  method Work(offsets: array<int>, offsetcount: nat, topBracket: nat) returns (room: nat, resetcount: nat)
    requires offsetcount <= offsets.Length
    modifies offsets
    ensures room == offsetcount / 3 && 3 * room <= offsetcount && resetcount <= offsetcount
    ensures resetcount == if 2 + 2 * topBracket > offsetcount then 3 * room else 2 + 2 * topBracket
  {
    var ocount := offsetcount - offsetcount % 3;
    room := ocount / 3;
    resetcount := 2 + topBracket * 2;
    if resetcount > offsetcount { resetcount := ocount; }
    ResetWork(offsets, offsetcount, ocount, resetcount);
  }

  /** Sets the pairs to -1. */
  method ResetPairs(offsets: array<int>, resetcount: nat)
    requires resetcount <= offsets.Length
    modifies offsets
    ensures forall i :: 0 <= i < offsets.Length ==> offsets[i] == if i < resetcount then -1 else old(offsets[i])
  {
    var i := 0;
    while i < resetcount
      invariant 0 <= i <= resetcount
      invariant forall k :: 0 <= k < offsets.Length ==> offsets[k] == if k < i then -1 else old(offsets[k])
    {
      offsets[i] := -1;
      i := i + 1;
    }
  }

  lemma FilledByPairs(v: seq<int>, base: seq<int>, caps: map<nat, (nat, nat)>, room: nat, topBracket: nat, count: nat, resetcount: nat)
    requires Pairs(v, base, {}, caps, room) && room == count / 3 && count <= |v|
    requires resetcount == (if 2 + 2 * topBracket > count then 3 * room else 2 + 2 * topBracket)
    requires forall i :: 0 <= i < resetcount ==> base[i] == -1
    ensures Filled(v, room, topBracket, caps)
  {
  }

  /** The attempt at `start`, and what comes of it; `done` unless there is another position to try. */
  method Decide(md: MatchData, ghost from: nat, offsetcount: nat, ghost resetcount: nat, start: nat, anchored: bool, ghost once: bool,
                ghost topBracket: nat, ghost alts: Alts)
    returns (rc: int, done: bool)
    requires md.Valid() && ValidAlts(alts) && RepeatableAlts(alts) && NumberedAlts(alts, 0) && ValidNode(LowerPattern(alts))
    requires md.code == CompiledPattern(alts) && from <= start <= |md.E.s| && md.groups == AltsCount(alts) == topBracket && md.Flagged(map[])
    requires md.room == offsetcount / 3 && offsetcount <= md.ov.Length && resetcount <= md.ov.Length
    requires resetcount == if 2 + 2 * topBracket > offsetcount then 3 * md.room else 2 + 2 * topBracket
    requires forall i :: 0 <= i < resetcount ==> md.ov[i] == -1
    requires NoneBefore(md.E, alts, md.notempty, from, start) && (anchored ==> start == from)
    requires (once ==> anchored) && (anchored && !once ==> BeginsAlts(md.E.opt, true, alts))
    requires md.overflow <==> ClosesBefore(md.E, alts, md.notempty, md.room, from, start)
    modifies md, md.ov
    ensures done ==> Result(rc, md.E, alts, md.notempty, once, from, md.ov[..], offsetcount, topBracket, md.limit)
    ensures done && rc < 0 ==> rc == ERROR_NOMATCH || (rc == ERROR_MATCHLIMIT && md.limit.Some?)
    ensures done && rc == ERROR_NOMATCH ==> md.ov[..] == old(md.ov[..])
    ensures !done ==> !anchored && start < |md.E.s| && NoneBefore(md.E, alts, md.notempty, from, start + 1) && md.Flagged(map[])
    ensures !done ==> (md.overflow <==> ClosesBefore(md.E, alts, md.notempty, md.room, from, start + 1))
  {
    hide Hits, NoneBefore, Closes, ClosesBefore, Affordable, AttemptTrack, NoHit, Filled, Attempt, Result;
    hide Reported, Pairs, OffsetTop;
    hide BeginsAlts, RepeatableAlts, NumberedAlts, ValidAlts, CompiledPattern, LowerPattern, ValidNode;
    hide MatchData.Flagged;
    ghost var base := md.ov[..];
    rc := Try(md, start, alts);
    OneMoreCloses(md.E, alts, md.notempty, md.room, from, start);
    done := true;
    if rc == MATCH_NOMATCH {
      Missed(md.E, alts, md.notempty, from, start);
      if anchored || start + 1 > |md.E.s| {
        Exhausted(md.E, alts, md.notempty, once, anchored, from, start + 1);
        NoMatch(md.E, alts, md.notempty, once, from, md.ov[..], offsetcount, topBracket, md.limit);
        rc := ERROR_NOMATCH;
      } else {
        done := false;
      }
    } else if rc == MATCH_MATCH {
      rc := Report(md, from, offsetcount, resetcount, start, once, topBracket, alts, base);
    } else {
      Interrupted(md.E, alts, md.notempty, once, from, start, md.ov[..], offsetcount, topBracket, md.limit);
    }
  }

  /**
   * pcre_exec. `once` is the ANCHORED option, given here or when compiling. Whatever is skipped,
   * the outcome is that of calling `match` at every position from `startOffset` on.
   */
  method PcreExec(re: Pcre, startBits: Option<seq<byte>>, subject: seq<byte>, startOffset: nat, anchoredOption: bool,
                  notbol: bool, noteol: bool, notempty: bool, offsets: array<int>, offsetcount: nat, limit: Option<nat>,
                  ghost alts: Alts, ghost forced: bool)
    returns (rc: int)
    requires Describes(re, alts, forced) && re.tab.CaseConsistent()
    requires startOffset <= |subject| <= INT_MAX && offsetcount <= offsets.Length
    requires startBits.Some? ==> StudyOk(Env(subject, re.tab, re.opt, notbol, noteol), alts, startBits.value)
    modifies offsets
    ensures Result(rc, Env(subject, re.tab, re.opt, notbol, noteol), alts, notempty, forced || anchoredOption, startOffset,
                   offsets[..], offsetcount, re.topBracket, limit)
    ensures rc < 0 ==> rc == ERROR_NOMATCH || (rc == ERROR_MATCHLIMIT && limit.Some?)
    ensures rc == ERROR_NOMATCH && offsetcount >= 3 ==> offsets[0] == -1
  {
    hide Hits, NoneBefore, Closes, ClosesBefore, Affordable, AttemptTrack, NoHit, Filled, Attempt, Describes;
    hide Result, Reported, Pairs, OffsetTop, StudyOk;
    hide BeginsAlts, RepeatableAlts, NumberedAlts, ValidAlts, CompiledPattern, LowerPattern, ValidNode;
    hide MatchData.Flagged;
    var E := Env(subject, re.tab, re.opt, notbol, noteol);
    ghost var once := forced || anchoredOption;
    var anchored := re.anchored || anchoredOption;
    var room, resetcount := Work(offsets, offsetcount, re.topBracket);
    var firstByte, mapBits := None, None;
    if !anchored {
      if re.first.Some? { firstByte := re.first; }
      else if !re.startline { mapBits := startBits; }
    }
    WhatDescribes(re, alts, forced);
    var md := new MatchData(re.code, E, notempty, offsets, room, limit, re.topBracket);
    var start := startOffset;
    var reqPtr: int := startOffset - 1;
    NoneYet(E, alts, notempty, room, startOffset);
    while true
      invariant startOffset <= start <= |subject| && NoneBefore(E, alts, notempty, startOffset, start)
      invariant anchored ==> start == startOffset
      invariant md.Flagged(map[]) && (md.overflow <==> ClosesBefore(E, alts, notempty, room, startOffset, start))
      decreases |subject| - start
    {
      ResetPairs(offsets, resetcount);
      start := Advance(re, E, firstByte, mapBits, startOffset, start, alts, forced, notempty, room);
      var absent;
      absent, reqPtr := Required(re, E, firstByte, start, reqPtr, alts, forced, notempty);
      if absent {
        NoneLeft(E, alts, notempty, startOffset, start);
        NoMatch(E, alts, notempty, once, startOffset, offsets[..], offsetcount, re.topBracket, limit);
        return ERROR_NOMATCH;
      }
      var done;
      rc, done := Decide(md, startOffset, offsetcount, resetcount, start, anchored, once, re.topBracket, alts);
      if done { return; }
      start := start + 1;
    }
  }

  /** Looks for the required byte, unless the rest of the subject is long or it was seen further on already. */
  method Required(re: Pcre, E: Env, firstByte: Option<FixedByte>, start: nat, reqPtr: int, ghost alts: Alts, ghost forced: bool, ghost notempty: bool)
    returns (absent: bool, ptr: int)
    requires Known(re, E, alts, forced) && (firstByte.Some? ==> firstByte == re.first) && start <= |E.s|
    ensures absent ==> NoHit(E, alts, notempty, start)
  {
    hide Describes, NoHit;
    WhatDescribes(re, alts, forced);
    absent, ptr := false, reqPtr;
    if re.req.Some? && |E.s| - start < REQ_BYTE_MAX {
      var p := start + if firstByte.Some? then 1 else 0;
      if p > reqPtr {
        ghost var p0 := p;
        p := FindRequired(re, E, p);
        if p >= |E.s| {
          ReqMiss(re, alts, forced, E, notempty, start, p0);
          absent := true;
        } else {
          ptr := p;
        }
      }
    }
  }

  lemma NoMatch(E: Env, alts: Alts, notempty: bool, once: bool, from: nat, v: seq<int>, count: nat, topBracket: nat, limit: Option<nat>)
    requires ValidAlts(alts) && count <= |v| && from <= |E.s|
    requires if once then !Hits(E, alts, notempty, from) else NoHit(E, alts, notempty, from)
    ensures Result(ERROR_NOMATCH, E, alts, notempty, once, from, v, count, topBracket, limit)
  {
  }

  lemma Interrupted(E: Env, alts: Alts, notempty: bool, once: bool, from: nat, i: nat, v: seq<int>, count: nat, topBracket: nat, limit: Option<nat>)
    requires ValidAlts(alts) && count <= |v| && from <= i <= |E.s|
    requires NoneBefore(E, alts, notempty, from, i) && (once ==> i == from) && !Affordable(E, alts, notempty, limit, i)
    ensures Result(ERROR_MATCHLIMIT, E, alts, notempty, once, from, v, count, topBracket, limit)
  {
  }

  lemma Matched(rc: int, E: Env, alts: Alts, notempty: bool, once: bool, from: nat, i: nat, v: seq<int>, count: nat, topBracket: nat, limit: Option<nat>)
    requires ValidAlts(alts) && count <= |v| && from <= i <= |E.s| && rc >= 0
    requires FirstHit(E, alts, notempty, from, i) && (once ==> i == from)
    requires Affordable(E, alts, notempty, limit, i) && Reported(rc, E, alts, notempty, from, i, v, count, topBracket)
    ensures Result(rc, E, alts, notempty, once, from, v, count, topBracket, limit)
  {
  }

  /** Fills in substring 0 and the return code after a match at `start`. */
  method Report(md: MatchData, ghost from: nat, offsetcount: nat, ghost resetcount: nat, start: nat, ghost once: bool, ghost topBracket: nat,
                ghost alts: Alts, ghost base: seq<int>)
    returns (rc: int)
    requires ValidAlts(alts) && from <= start <= |md.E.s| && md.room == offsetcount / 3 && offsetcount <= md.ov.Length
    requires resetcount == (if 2 + 2 * topBracket > offsetcount then 3 * md.room else 2 + 2 * topBracket)
    requires |base| == md.ov.Length && resetcount <= |base| && forall i :: 0 <= i < resetcount ==> base[i] == -1
    requires var res := Attempt(md.E, alts, VetoAt(md.notempty, start), start);
             && res.Some? && md.endMatch == res.value.pos && OffsetTop(md.endTop, res.value.caps, md.room)
             && Pairs(md.ov[..], base, {}, res.value.caps, md.room) && md.Flagged(res.value.caps)
    requires md.groups == topBracket && Affordable(md.E, alts, md.notempty, md.limit, start)
    requires md.overflow <==> ClosesBefore(md.E, alts, md.notempty, md.room, from, start + 1)
    requires NoneBefore(md.E, alts, md.notempty, from, start) && (once ==> start == from)
    modifies md.ov
    ensures rc >= 0 && Result(rc, md.E, alts, md.notempty, once, from, md.ov[..], offsetcount, topBracket, md.limit)
  {
    hide Filled, Attempt, Pairs, NoneBefore, FirstHit, Result, ClosesBefore, Affordable;
    Hit1(md.E, alts, md.notempty, from, start);
    ghost var caps := Attempt(md.E, alts, VetoAt(md.notempty, start), start).value.caps;
    FilledByPairs(md.ov[..], base, caps, md.room, topBracket, offsetcount, resetcount);
    rc := if md.overflow then 0 else md.endTop / 2;
    if offsetcount < 2 {
      rc := 0;
    } else {
      StillFilled(md.ov[..], start, md.endMatch, md.room, topBracket, caps);
      md.ov[0], md.ov[1] := start, md.endMatch;
      assert md.ov[..] == old(md.ov[..])[0 := start][1 := md.endMatch];
    }
    Matched(rc, md.E, alts, md.notempty, once, from, start, md.ov[..], offsetcount, topBracket, md.limit);
  }

  lemma WhatDescribes(re: Pcre, alts: Alts, forced: bool)
    requires Describes(re, alts, forced)
    ensures ValidAlts(alts) && RepeatableAlts(alts) && NumberedAlts(alts, 0) && ValidNode(LowerPattern(alts))
    ensures re.code == CompiledPattern(alts) && |re.code| <= MAX_PATTERN_SIZE && re.topBracket == AltsCount(alts)
    ensures re.anchored && !forced ==> BeginsAlts(re.opt, true, alts)
    ensures forced ==> re.anchored
    ensures re.startline ==> BeginsAlts(re.opt, false, alts)
  {
  }

  lemma NoneYet(E: Env, alts: Alts, notempty: bool, room: nat, from: nat)
    requires ValidAlts(alts)
    ensures NoneBefore(E, alts, notempty, from, from) && !ClosesBefore(E, alts, notempty, room, from, from)
  {
  }

  lemma NoneLeft(E: Env, alts: Alts, notempty: bool, from: nat, start: nat)
    requires ValidAlts(alts) && from <= start <= |E.s| && NoneBefore(E, alts, notempty, from, start) && NoHit(E, alts, notempty, start)
    ensures NoHit(E, alts, notempty, from) && !Hits(E, alts, notempty, from)
  {
  }

  lemma Missed(E: Env, alts: Alts, notempty: bool, from: nat, start: nat)
    requires ValidAlts(alts) && from <= start <= |E.s| && NoneBefore(E, alts, notempty, from, start)
    requires Attempt(E, alts, VetoAt(notempty, start), start) == None
    ensures NoneBefore(E, alts, notempty, from, start + 1) && !Hits(E, alts, notempty, from)
  {
  }

  lemma NoneAtAll(E: Env, alts: Alts, notempty: bool, from: nat, start: nat)
    requires ValidAlts(alts) && from <= |E.s| < start && NoneBefore(E, alts, notempty, from, start)
    ensures NoHit(E, alts, notempty, from) && !Hits(E, alts, notempty, from)
  {
  }

  lemma AnchoredNone(E: Env, alts: Alts, notempty: bool, from: nat)
    requires ValidAlts(alts) && RepeatableAlts(alts) && BeginsAlts(E.opt, true, alts) && from <= |E.s| && !Hits(E, alts, notempty, from)
    ensures NoHit(E, alts, notempty, from)
  {
    hide Hits;
    forall m: nat | from <= m <= |E.s| ensures !Hits(E, alts, notempty, m) {
      AnchoredMiss(E, alts, notempty, from, m);
    }
  }

  /** No further position is tried. */
  lemma Exhausted(E: Env, alts: Alts, notempty: bool, once: bool, anchored: bool, from: nat, start: nat)
    requires ValidAlts(alts) && RepeatableAlts(alts) && from <= |E.s| && from < start && NoneBefore(E, alts, notempty, from, start)
    requires anchored || start > |E.s|
    requires once ==> anchored
    requires anchored && !once ==> BeginsAlts(E.opt, true, alts)
    ensures if once then !Hits(E, alts, notempty, from) else NoHit(E, alts, notempty, from)
  {
    hide Hits;
    if !anchored {
      NoneAtAll(E, alts, notempty, from, start);
    } else if !once {
      AnchoredNone(E, alts, notempty, from);
    }
  }

  lemma Hit1(E: Env, alts: Alts, notempty: bool, from: nat, start: nat)
    requires ValidAlts(alts) && from <= start <= |E.s| && NoneBefore(E, alts, notempty, from, start)
    requires Attempt(E, alts, VetoAt(notempty, start), start).Some?
    ensures FirstHit(E, alts, notempty, from, start)
  {
  }

  lemma StillFilled(v: seq<int>, x: int, y: int, room: nat, topBracket: nat, caps: map<nat, (nat, nat)>)
    requires |v| >= 2 && Filled(v, room, topBracket, caps)
    ensures Filled(v[0 := x][1 := y], room, topBracket, caps)
  {
  }
}
