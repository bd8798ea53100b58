/**
 * The global search of the demonstration program: pcre_exec again and again, from the end of the
 * last match, with a second try at the same place after an empty one.
 */
module GlobalLoop {
  import opened Wrappers
  import opened Bytes
  import opened Subject
  import opened Regex
  import opened Correct
  import opened Pattern
  import opened Matcher
  import opened Exec
  import opened FirstPass
  import opened Lengths
  import opened Numbering

  const OVECCOUNT := 30

  type Span = (nat, nat)

  predicate Is(last: Option<Span>, i: nat, j: nat) {
    last.Some? && last.value.0 == i && last.value.1 == j
  }

  /** The match at `i` ends at `j`; where the one before it was empty at `i`, it may not be empty again. */
  ghost predicate Chosen(E: Env, alts: Alts, before: Option<Span>, i: nat, j: nat)
    requires ValidAlts(alts)
  {
    i <= j <= |E.s| &&
    var a := Attempt(E, alts, if Is(before, i, i) then i else -1, i);
    a.Some? && a.value.pos == j
  }

  /** At no position from `from` on and before `to` does `match` find anything but the span `last`. */
  ghost predicate Gap(E: Env, alts: Alts, last: Option<Span>, from: nat, to: nat)
    requires ValidAlts(alts)
  {
    forall m: nat :: from <= m < to && m <= |E.s| ==> Only(E, alts, last, m)
  }

  ghost predicate Only(E: Env, alts: Alts, last: Option<Span>, m: nat)
    requires ValidAlts(alts) && m <= |E.s|
  {
    !Hits(E, alts, Is(last, m, m), m)
  }

  /** The span before position `k`. */
  function Before(spans: seq<Span>, k: nat): Option<Span>
    requires k <= |spans|
  {
    if k == 0 then None else Some(spans[k - 1])
  }

  function End(last: Option<Span>): nat {
    if last.None? then 0 else last.value.1
  }

  /** Span `k` is the first that there is beyond the one before it. */
  ghost predicate Next(E: Env, alts: Alts, spans: seq<Span>, k: nat)
    requires ValidAlts(alts) && k < |spans|
  {
    var before, here := Before(spans, k), spans[k];
    End(before) <= here.0 && Chosen(E, alts, before, here.0, here.1) && Gap(E, alts, before, End(before), here.0)
  }

  ghost predicate Listed(E: Env, alts: Alts, spans: seq<Span>)
    requires ValidAlts(alts)
  {
    forall k :: 0 <= k < |spans| ==> Next(E, alts, spans, k)
  }

  // ----- what one call says -----

  lemma Searched(E: Env, alts: Alts, from: nat, to: nat, last: Option<Span>)
    requires ValidAlts(alts) && NoneBefore(E, alts, false, from, to) && !Is(last, from, from) && End(last) <= from
    ensures Gap(E, alts, last, from, to)
  {
    hide Hits;
    forall m: nat | from <= m < to && m <= |E.s| ensures Only(E, alts, last, m) {
      assert !Is(last, m, m) && !Hits(E, alts, false, m);
    }
  }

  lemma Joined(E: Env, alts: Alts, last: Option<Span>, from: nat, mid: nat, to: nat)
    requires ValidAlts(alts) && Gap(E, alts, last, from, mid) && Gap(E, alts, last, mid, to)
    ensures Gap(E, alts, last, from, to)
  {
  }

  /** Some attempt takes more calls than the limit permits. */
  ghost predicate Exceeds(E: Env, alts: Alts, limit: Option<nat>)
    requires ValidAlts(alts)
  {
    exists i: nat, notempty: bool :: i <= |E.s| && !Affordable(E, alts, notempty, limit, i)
  }

  lemma FoundExceeds(rc: int, E: Env, alts: Alts, again: bool, from: nat, v: seq<int>, topBracket: nat, limit: Option<nat>)
    requires ValidAlts(alts) && from <= |E.s| && OVECCOUNT <= |v| && rc < 0 && rc != ERROR_NOMATCH
    requires Result(rc, E, alts, again, again, from, v, OVECCOUNT, topBracket, limit)
    ensures Exceeds(E, alts, limit)
  {
    hide Affordable;
  }

  /** A call without options reports the first match from `from` on. */
  lemma FoundFirst(rc: int, E: Env, alts: Alts, from: nat, v: seq<int>, topBracket: nat, limit: Option<nat>, last: Option<Span>)
    requires ValidAlts(alts) && from <= |E.s| && OVECCOUNT <= |v| && rc >= 0
    requires Result(rc, E, alts, false, false, from, v, OVECCOUNT, topBracket, limit)
    requires !Is(last, from, from) && End(last) <= from
    ensures from <= v[0] <= v[1] <= |E.s|
    ensures Chosen(E, alts, last, v[0], v[1]) && Gap(E, alts, last, from, v[0])
  {
    hide Filled, Attempt;
    var i: nat :| i <= |E.s| && FirstHit(E, alts, false, from, i) && Reported(rc, E, alts, false, from, i, v, OVECCOUNT, topBracket);
    AttemptSound(E, alts, -1, i);
    Searched(E, alts, from, i, last);
  }

  lemma FoundNone(E: Env, alts: Alts, from: nat, v: seq<int>, topBracket: nat, limit: Option<nat>, last: Option<Span>)
    requires ValidAlts(alts) && from <= |E.s| && OVECCOUNT <= |v|
    requires Result(ERROR_NOMATCH, E, alts, false, false, from, v, OVECCOUNT, topBracket, limit)
    requires !Is(last, from, from) && End(last) <= from
    ensures Gap(E, alts, last, from, |E.s| + 1)
  {
    hide Hits;
    Searched(E, alts, from, |E.s| + 1, last);
  }

  /** A call with NOTEMPTY and ANCHORED reports a longer match at the same place. */
  lemma FoundLonger(rc: int, E: Env, alts: Alts, p: nat, v: seq<int>, topBracket: nat, limit: Option<nat>)
    requires ValidAlts(alts) && p <= |E.s| && OVECCOUNT <= |v| && rc >= 0
    requires Result(rc, E, alts, true, true, p, v, OVECCOUNT, topBracket, limit)
    ensures v[0] == p < v[1] <= |E.s| && Chosen(E, alts, Some((p, p)), p, v[1])
  {
    hide Filled, Attempt;
    AttemptSound(E, alts, p, p);
  }

  lemma FoundNoLonger(E: Env, alts: Alts, p: nat, v: seq<int>, topBracket: nat, limit: Option<nat>)
    requires ValidAlts(alts) && p <= |E.s| && OVECCOUNT <= |v|
    requires Result(ERROR_NOMATCH, E, alts, true, true, p, v, OVECCOUNT, topBracket, limit)
    ensures Gap(E, alts, Some((p, p)), p, p + 1)
  {
  }

  /** At the end of the subject there is nothing but the empty match. */
  lemma OnlyEmpty(E: Env, alts: Alts)
    requires ValidAlts(alts)
    ensures Gap(E, alts, Some((|E.s|, |E.s|)), |E.s|, |E.s| + 1)
  {
    if Hits(E, alts, true, |E.s|) { var j := HitSpan(E, alts, true, |E.s|); }
  }

  lemma OneMoreListed(E: Env, alts: Alts, spans: seq<Span>, last: Option<Span>, i: nat, j: nat)
    requires ValidAlts(alts) && Listed(E, alts, spans) && last == Before(spans, |spans|)
    requires End(last) <= i && Chosen(E, alts, last, i, j) && Gap(E, alts, last, End(last), i)
    ensures Listed(E, alts, spans + [(i, j)])
  {
    hide Chosen, Gap;
    var more := spans + [(i, j)];
    forall k | 0 <= k < |more| ensures Next(E, alts, more, k) {
      assert Before(more, k) == Before(spans, k);
      if k < |spans| { assert Next(E, alts, spans, k); }
    }
  }

  // ----- what the list amounts to -----

  lemma ChosenForward(E: Env, alts: Alts, before: Option<Span>, i: nat, j: nat)
    requires ValidAlts(alts) && Chosen(E, alts, before, i, j) && End(before) <= i
    ensures i <= j <= |E.s| && !Is(before, i, j) && LangAlts(E, alts, i, j)
  {
    AttemptSound(E, alts, if Is(before, i, i) then i else -1, i);
  }

  /** The spans are in order, do not overlap and are all different. */
  lemma {:induction false} Apart(E: Env, alts: Alts, spans: seq<Span>, a: nat, b: nat)
    requires ValidAlts(alts) && Listed(E, alts, spans) && a < b < |spans|
    ensures spans[a].1 <= spans[b].0 && spans[a] != spans[b]
    decreases b
  {
    hide Chosen, Gap;
    assert Next(E, alts, spans, a) && Next(E, alts, spans, b) && Next(E, alts, spans, b - 1);
    ChosenForward(E, alts, Before(spans, a), spans[a].0, spans[a].1);
    ChosenForward(E, alts, Before(spans, b), spans[b].0, spans[b].1);
    ChosenForward(E, alts, Before(spans, b - 1), spans[b - 1].0, spans[b - 1].1);
    if a < b - 1 { Apart(E, alts, spans, a, b - 1); }
  }

  /** Between two spans `match` finds nothing, or nothing longer if the first of them is empty there. */
  lemma NoneBetween(E: Env, alts: Alts, spans: seq<Span>, k: nat, m: nat)
    requires ValidAlts(alts) && Listed(E, alts, spans) && k + 1 < |spans| && spans[k].1 <= m < spans[k + 1].0
    ensures m <= |E.s| && !Hits(E, alts, spans[k] == (m, m), m)
  {
    hide Hits;
    assert Next(E, alts, spans, k + 1);
    assert Only(E, alts, Before(spans, k + 1), m);
  }

  /** On the exact fragment that means that the language has no other match there. */
  lemma NoSpanBetween(E: Env, alts: Alts, spans: seq<Span>, k: nat, m: nat, j: nat)
    requires ValidAlts(alts) && ExactAlts(alts) && Listed(E, alts, spans) && k + 1 < |spans|
    requires spans[k].1 <= m < spans[k + 1].0 && LangAlts(E, alts, m, j)
    ensures (m, j) == spans[k]
  {
    hide Attempt, LangAlts;
    NoneBetween(E, alts, spans, k, m);
    AttemptDecides(E, alts, if spans[k] == (m, m) then m else -1, m);
  }

  /** Two complete lists of the same subject are the same. */
  lemma {:induction false} ListedOnce(E: Env, alts: Alts, a: seq<Span>, b: seq<Span>, k: nat)
    requires ValidAlts(alts) && Listed(E, alts, a) && Listed(E, alts, b) && k <= |a| && k <= |b|
    ensures a[..k] == b[..k]
    decreases k
  {
    hide Chosen, Gap;
    if k > 0 {
      ListedOnce(E, alts, a, b, k - 1);
      var before := Before(a, k - 1);
      if k > 1 { assert a[..k - 1][k - 2] == a[k - 2] && b[..k - 1][k - 2] == b[k - 2]; }
      assert Next(E, alts, a, k - 1) && Next(E, alts, b, k - 1);
      SameNext(E, alts, before, a[k - 1].0, a[k - 1].1, b[k - 1].0, b[k - 1].1);
      assert a[..k] == a[..k - 1] + [a[k - 1]] && b[..k] == b[..k - 1] + [b[k - 1]];
    }
  }

  lemma SameNext(E: Env, alts: Alts, before: Option<Span>, i: nat, j: nat, p: nat, q: nat)
    requires ValidAlts(alts) && End(before) <= i && End(before) <= p
    requires Chosen(E, alts, before, i, j) && Gap(E, alts, before, End(before), i)
    requires Chosen(E, alts, before, p, q) && Gap(E, alts, before, End(before), p)
    ensures i == p && j == q
  {
    ChosenForward(E, alts, before, i, j);
    ChosenForward(E, alts, before, p, q);
    hide Attempt, LangAlts;
    assert !Only(E, alts, before, i) && !Only(E, alts, before, p);
  }

  // ----- the program -----

  /** One call of pcre_exec; `again` asks for a longer match at the place of the last, empty one. */
  method Call(re: Pcre, subject: seq<byte>, startOffset: nat, again: bool, ovector: array<int>, limit: Option<nat>,
              ghost alts: Alts, ghost last: Option<Span>)
    returns (rc: int)
    requires Describes(re, alts, false) && re.tab.CaseConsistent()
    requires startOffset <= |subject| <= INT_MAX && OVECCOUNT <= ovector.Length
    requires End(last) <= startOffset && (again <==> Is(last, startOffset, startOffset))
    modifies ovector
    ensures ValidAlts(alts)
    ensures rc < 0 && rc != ERROR_NOMATCH ==> limit.Some? && Exceeds(Env(subject, re.tab, re.opt, false, false), alts, limit)
    ensures var E := Env(subject, re.tab, re.opt, false, false);
            && (rc == ERROR_NOMATCH ==> ovector[0] == -1 && Gap(E, alts, last, startOffset, if again then startOffset + 1 else |subject| + 1))
            && (rc >= 0 ==> startOffset <= ovector[0] <= ovector[1] <= |subject| && (again ==> startOffset == ovector[0] < ovector[1])
                            && Chosen(E, alts, last, ovector[0], ovector[1]) && Gap(E, alts, last, startOffset, ovector[0]))
  {
    hide Describes, Result, Chosen, Gap, ValidAlts, Exceeds;
    WhatDescribes(re, alts, false);
    ghost var E := Env(subject, re.tab, re.opt, false, false);
    rc := PcreExec(re, None, subject, startOffset, again, false, false, again, ovector, OVECCOUNT, limit, alts, false);
    if rc == ERROR_NOMATCH {
      if again { FoundNoLonger(E, alts, startOffset, ovector[..], re.topBracket, limit); }
      else { FoundNone(E, alts, startOffset, ovector[..], re.topBracket, limit, last); }
    } else if rc >= 0 {
      if again {
        FoundLonger(rc, E, alts, startOffset, ovector[..], re.topBracket, limit);
        EmptyGap(E, alts, last, startOffset);
      } else {
        FoundFirst(rc, E, alts, startOffset, ovector[..], re.topBracket, limit, last);
      }
    }
    if rc < 0 && rc != ERROR_NOMATCH { FoundExceeds(rc, E, alts, again, startOffset, ovector[..], re.topBracket, limit); }
    assert last.Some? && again ==> last == Some((startOffset, startOffset));
  }

  /** Finds a first match and then, with the /g loop, the others. `done` is false after a matching error. */
  method FindAll(re: Pcre, subject: seq<byte>, ovector: array<int>, limit: Option<nat>, ghost alts: Alts)
    returns (spans: seq<Span>, done: bool)
    requires Describes(re, alts, false) && re.tab.CaseConsistent()
    requires |subject| <= INT_MAX && OVECCOUNT <= ovector.Length
    modifies ovector
    ensures ValidAlts(alts) && (limit.None? ==> done)
    ensures !done ==> Exceeds(Env(subject, re.tab, re.opt, false, false), alts, limit)
    ensures var E := Env(subject, re.tab, re.opt, false, false);
            && Listed(E, alts, spans)
            && (done ==> Gap(E, alts, Before(spans, |spans|), End(Before(spans, |spans|)), |subject| + 1))
  {
    hide Describes, Chosen, Gap, Listed, ValidAlts, Exceeds;
    WhatDescribes(re, alts, false);
    ghost var E := Env(subject, re.tab, re.opt, false, false);
    spans := [];
    NoneListed(E, alts);
    var rc := Call(re, subject, 0, false, ovector, limit, alts, None);
    if rc == ERROR_NOMATCH { return spans, true; }
    if rc < 0 { return spans, false; }
    OneMoreListed(E, alts, spans, None, ovector[0], ovector[1]);
    ghost var last: Option<Span> := Some((ovector[0], ovector[1]));
    spans := spans + [(ovector[0], ovector[1])];
    EmptyGap(E, alts, last, End(last));
    while true
      invariant 0 <= ovector[1] <= |subject| && End(last) <= ovector[1]
      invariant |spans| > 0 && last == Before(spans, |spans|)
      invariant Listed(E, alts, spans) && Gap(E, alts, last, End(last), ovector[1])
      invariant ovector[0] == ovector[1] <==> Is(last, ovector[1], ovector[1])
      decreases |subject| - ovector[1], ovector[0] != ovector[1]
    {
      var again := false;
      var startOffset := ovector[1];
      if ovector[0] == ovector[1] {
        if ovector[0] == |subject| {
          OnlyEmpty(E, alts);
          Joined(E, alts, last, End(last), startOffset, |subject| + 1);
          return spans, true;
        }
        again := true;
      }
      rc := Call(re, subject, startOffset, again, ovector, limit, alts, last);
      if rc == ERROR_NOMATCH {
        if !again {
          Joined(E, alts, last, End(last), startOffset, |subject| + 1);
          return spans, true;
        }
        Joined(E, alts, last, End(last), startOffset, startOffset + 1);
        ovector[1] := startOffset + 1;
      } else if rc < 0 {
        return spans, false;
      } else {
        Joined(E, alts, last, End(last), startOffset, ovector[0]);
        OneMoreListed(E, alts, spans, last, ovector[0], ovector[1]);
        last := Some((ovector[0], ovector[1]));
        spans := spans + [(ovector[0], ovector[1])];
        EmptyGap(E, alts, last, End(last));
      }
    }
  }

  /** The program as a whole: compile the pattern, then list its matches. `err` is that of pcre_compile. */
  method Demo(alts: Alts, opt: Options, tab: TableSet, subject: seq<byte>) returns (err: int, spans: seq<Span>)
    requires ValidAlts(alts) && NumberedAlts(alts, 0) && tab.CaseConsistent() && |subject| <= INT_MAX
    ensures err == 0 <==> AltsDepth(alts) <= BRASTACK_SIZE && PatternLength(alts) <= MAX_PATTERN_SIZE && RepeatableAlts(alts)
    ensures err == 0 ==>
              var E, last := Env(subject, tab, opt, false, false), Before(spans, |spans|);
              Listed(E, alts, spans) && Gap(E, alts, last, End(last), |subject| + 1)
  {
    hide Describes, Listed, Gap, RepeatableAlts, AltsDepth, PatternLength;
    var r := Compile(alts, opt, tab, false);
    if r.Err? { return r.code, []; }
    var ovector := new int[OVECCOUNT];
    var done;
    spans, done := FindAll(r.re, subject, ovector, None, alts);
    err := 0;
  }

  lemma NoneListed(E: Env, alts: Alts)
    requires ValidAlts(alts)
    ensures Listed(E, alts, [])
  {
  }

  lemma EmptyGap(E: Env, alts: Alts, last: Option<Span>, at: nat)
    requires ValidAlts(alts)
    ensures Gap(E, alts, last, at, at)
  {
  }
}
