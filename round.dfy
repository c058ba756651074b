/** One round of `main_loop`: the entry lists of all feeds are walked index-major,
    feed-minor; each attempted entry is followed by a pause, and the round ends right
    after the third successful send. The outcome of `send_post` for each attempted
    entry is an input, and the sleeps are recorded in a trace. */
module Round {
  import Text

  /** Entry `index` of feed `feed`. */
  datatype Slot = Slot(index: nat, feed: nat)

  /** What the round does, in order: call `send_post` on a slot, or sleep. */
  datatype Event = Attempt(slot: Slot, success: bool) | Sleep(seconds: int)

  /** Successful sends after which the round pauses and ends. */
  const BurstLimit: nat := 3
  /** The pause after every other attempted entry. */
  const PacingSeconds: int := 30

  /** `max(len(feed) for feed in all_entries)`; Python raises on an empty list of feeds. */
  function MaxLen<E>(feeds: seq<seq<E>>): (m: nat)
    requires |feeds| > 0
    ensures forall f :: 0 <= f < |feeds| ==> |feeds[f]| <= m
    ensures exists f :: 0 <= f < |feeds| && |feeds[f]| == m
  {
    if |feeds| == 1 then |feeds[0]|
    else
      var rest := MaxLen(feeds[1..]);
      assert forall f :: 1 <= f < |feeds| ==> feeds[f] == feeds[1..][f - 1];
      if |feeds[0]| >= rest then |feeds[0]| else rest
  }

  /** The slots still to visit from position (i, f): the rest of row i from feed f on,
      then every later row below maxLen, skipping feeds too short for the row. */
  function SlotsFrom<E>(feeds: seq<seq<E>>, maxLen: nat, i: nat, f: nat): seq<Slot>
    requires f <= |feeds|
    decreases maxLen - i, |feeds| - f
  {
    if i >= maxLen then []
    else if f == |feeds| then SlotsFrom(feeds, maxLen, i + 1, 0)
    else (if i < |feeds[f]| then [Slot(i, f)] else []) + SlotsFrom(feeds, maxLen, i, f + 1)
  }

  /** The order in which a round visits entries. */
  function Schedule<E>(feeds: seq<seq<E>>): seq<Slot>
    requires |feeds| > 0
  {
    SlotsFrom(feeds, MaxLen(feeds), 0, 0)
  }

  /** Slot s comes strictly before slot t in index-major, feed-minor order. */
  predicate Before(s: Slot, t: Slot) {
    s.index < t.index || (s.index == t.index && s.feed < t.feed)
  }

  predicate Strictly(slots: seq<Slot>) {
    forall a, b :: 0 <= a < b < |slots| ==> Before(slots[a], slots[b])
  }

  /** Feed `s.feed` has an entry at index `s.index`. */
  predicate Exists<E>(feeds: seq<seq<E>>, s: Slot) {
    s.feed < |feeds| && s.index < |feeds[s.feed]|
  }

  /** Slot s is at or after position (i, f) in index-major, feed-minor order. */
  predicate AtOrAfter(s: Slot, i: nat, f: nat) {
    s.index > i || (s.index == i && s.feed >= f)
  }

  /** The slots at or after (i, f) that the walk from (i, f) should visit. */
  predicate Due<E>(feeds: seq<seq<E>>, maxLen: nat, i: nat, f: nat, s: Slot) {
    Exists(feeds, s) && s.index < maxLen && AtOrAfter(s, i, f)
  }

  /** From (i, f) on, the walk visits exactly the existing entries at or after (i, f)
      whose index is below maxLen. */
  lemma SlotsFromMembers<E>(feeds: seq<seq<E>>, maxLen: nat, i: nat, f: nat, s: Slot)
    requires f <= |feeds|
    ensures s in SlotsFrom(feeds, maxLen, i, f) <==> Due(feeds, maxLen, i, f, s)
  {
    SlotsFromSound(feeds, maxLen, i, f, s);
    SlotsFromComplete(feeds, maxLen, i, f, s);
  }

  /** Every slot the walk from (i, f) visits is due. */
  lemma {:induction false} SlotsFromSound<E>(feeds: seq<seq<E>>, maxLen: nat, i: nat, f: nat, s: Slot)
    requires f <= |feeds|
    ensures s in SlotsFrom(feeds, maxLen, i, f) ==> Due(feeds, maxLen, i, f, s)
    decreases maxLen - i, |feeds| - f, 1
  {
    if i < maxLen {
      if f == |feeds| {
        SoundRowEnd(feeds, maxLen, i, s);
      } else {
        SoundStep(feeds, maxLen, i, f, s);
      }
    }
  }

  lemma {:induction false} SoundRowEnd<E>(feeds: seq<seq<E>>, maxLen: nat, i: nat, s: Slot)
    requires i < maxLen
    ensures s in SlotsFrom(feeds, maxLen, i, |feeds|) ==> Due(feeds, maxLen, i, |feeds|, s)
    decreases maxLen - i, 0, 0
  {
    SlotsFromSound(feeds, maxLen, i + 1, 0, s);
    SlotsFromNextRow(feeds, maxLen, i);
  }

  /** Every due slot is visited by the walk from (i, f). */
  lemma {:induction false} SlotsFromComplete<E>(feeds: seq<seq<E>>, maxLen: nat, i: nat, f: nat, s: Slot)
    requires f <= |feeds|
    ensures Due(feeds, maxLen, i, f, s) ==> s in SlotsFrom(feeds, maxLen, i, f)
    decreases maxLen - i, |feeds| - f, 1
  {
    if i < maxLen {
      if f == |feeds| {
        CompleteRowEnd(feeds, maxLen, i, s);
      } else {
        CompleteStep(feeds, maxLen, i, f, s);
      }
    }
  }

  lemma {:induction false} CompleteRowEnd<E>(feeds: seq<seq<E>>, maxLen: nat, i: nat, s: Slot)
    requires i < maxLen
    ensures Due(feeds, maxLen, i, |feeds|, s) ==> s in SlotsFrom(feeds, maxLen, i, |feeds|)
    decreases maxLen - i, 0, 0
  {
    SlotsFromComplete(feeds, maxLen, i + 1, 0, s);
    SlotsFromNextRow(feeds, maxLen, i);
  }

  lemma {:induction false} SoundStep<E>(feeds: seq<seq<E>>, maxLen: nat, i: nat, f: nat, s: Slot)
    requires f < |feeds| && i < maxLen
    ensures s in SlotsFrom(feeds, maxLen, i, f) ==> Due(feeds, maxLen, i, f, s)
    decreases maxLen - i, |feeds| - f, 0
  {
    SlotsFromSound(feeds, maxLen, i, f + 1, s);
    if i < |feeds[f]| {
      SlotsFromCons(feeds, maxLen, i, f);
    } else {
      SlotsFromSkip(feeds, maxLen, i, f);
    }
  }

  lemma {:induction false} CompleteStep<E>(feeds: seq<seq<E>>, maxLen: nat, i: nat, f: nat, s: Slot)
    requires f < |feeds| && i < maxLen
    ensures Due(feeds, maxLen, i, f, s) ==> s in SlotsFrom(feeds, maxLen, i, f)
    decreases maxLen - i, |feeds| - f, 0
  {
    SlotsFromComplete(feeds, maxLen, i, f + 1, s);
    if i < |feeds[f]| {
      SlotsFromCons(feeds, maxLen, i, f);
    } else {
      SlotsFromSkip(feeds, maxLen, i, f);
    }
  }

  /** A slot that comes before every slot of an ordered sequence extends it in order. */
  lemma StrictlyCons(h: Slot, rest: seq<Slot>)
    requires Strictly(rest)
    requires forall b :: 0 <= b < |rest| ==> Before(h, rest[b])
    ensures Strictly([h] + rest)
  {
    var all := [h] + rest;
    forall a, b | 0 <= a < b < |all| ensures Before(all[a], all[b]) {
      if a == 0 {
        assert all[b] == rest[b - 1];
      } else {
        assert all[a] == rest[a - 1] && all[b] == rest[b - 1];
      }
    }
  }

  /** From (i, f) on, the walk visits slots in strictly increasing order. */
  lemma {:induction false} SlotsFromStrictly<E>(feeds: seq<seq<E>>, maxLen: nat, i: nat, f: nat)
    requires f <= |feeds|
    ensures Strictly(SlotsFrom(feeds, maxLen, i, f))
    decreases maxLen - i, |feeds| - f, 1
  {
    if i < maxLen {
      if f == |feeds| {
        StrictlyRowEnd(feeds, maxLen, i);
      } else {
        StrictlyStep(feeds, maxLen, i, f);
      }
    }
  }

  lemma {:induction false} StrictlyRowEnd<E>(feeds: seq<seq<E>>, maxLen: nat, i: nat)
    requires i < maxLen
    ensures Strictly(SlotsFrom(feeds, maxLen, i, |feeds|))
    decreases maxLen - i, 0, 0
  {
    SlotsFromStrictly(feeds, maxLen, i + 1, 0);
    SlotsFromNextRow(feeds, maxLen, i);
  }

  lemma {:induction false} StrictlyStep<E>(feeds: seq<seq<E>>, maxLen: nat, i: nat, f: nat)
    requires f < |feeds| && i < maxLen
    ensures Strictly(SlotsFrom(feeds, maxLen, i, f))
    decreases maxLen - i, |feeds| - f, 0
  {
    SlotsFromStrictly(feeds, maxLen, i, f + 1);
    var rest := SlotsFrom(feeds, maxLen, i, f + 1);
    if i < |feeds[f]| {
      forall b | 0 <= b < |rest| ensures Before(Slot(i, f), rest[b]) {
        SlotsFromSound(feeds, maxLen, i, f + 1, rest[b]);
      }
      SlotsFromCons(feeds, maxLen, i, f);
      StrictlyCons(Slot(i, f), rest);
    } else {
      SlotsFromSkip(feeds, maxLen, i, f);
    }
  }

  /** A round visits each existing entry (i, f) exactly once, in index-major,
      feed-minor order; shorter feeds are skipped on the rows they lack. */
  lemma ScheduleOrder<E>(feeds: seq<seq<E>>, s: Slot)
    requires |feeds| > 0
    ensures s in Schedule(feeds) <==> s.feed < |feeds| && s.index < |feeds[s.feed]|
    ensures Strictly(Schedule(feeds))
  {
    SlotsFromMembers(feeds, MaxLen(feeds), 0, 0, s);
    if s.feed < |feeds| {
      assert |feeds[s.feed]| <= MaxLen(feeds);
    }
    SlotsFromStrictly(feeds, MaxLen(feeds), 0, 0);
  }

  /** Feeds of lengths 2, 0 and 3 are visited as feeds 0, 2, 0, 2, 2. */
  lemma ScheduleExample()
    ensures Schedule([[10, 11], [], [20, 21, 22]]) ==
      [Slot(0, 0), Slot(0, 2), Slot(1, 0), Slot(1, 2), Slot(2, 2)]
  {
  }

  /** The number of slots whose send succeeds. */
  function CountOk(slots: seq<Slot>, sendPost: Slot -> bool): nat {
    if slots == [] then 0 else (if sendPost(slots[0]) then 1 else 0) + CountOk(slots[1..], sendPost)
  }

  /** The slots attempted in a trace, in order. */
  function Attempts(trace: seq<Event>): seq<Slot> {
    if trace == [] then []
    else (if trace[0].Attempt? then [trace[0].slot] else []) + Attempts(trace[1..])
  }

  /** The number of successful attempts in a trace. */
  function Successes(trace: seq<Event>): nat {
    if trace == [] then 0
    else (if trace[0].Attempt? && trace[0].success then 1 else 0) + Successes(trace[1..])
  }

  /** What the loop body does with the slots still to visit when `sent` sends have
      succeeded: attempt the next slot; at the burst limit sleep `delay` and stop,
      otherwise sleep the pacing delay and go on. */
  function Run(slots: seq<Slot>, sendPost: Slot -> bool, sent: nat, delay: int): seq<Event>
    decreases |slots|
  {
    if slots == [] then []
    else
      var s := slots[0];
      var success := sendPost(s);
      if success && sent + 1 >= BurstLimit then [Attempt(s, true), Sleep(delay)]
      else [Attempt(s, success), Sleep(PacingSeconds)] + Run(slots[1..], sendPost, if success then sent + 1 else sent, delay)
  }

  lemma {:induction false} SuccessesAppend(a: seq<Event>, b: seq<Event>)
    ensures Successes(a + b) == Successes(a) + Successes(b)
  {
    if a != [] {
      assert (a + b)[0] == a[0] && (a + b)[1..] == a[1..] + b;
      SuccessesAppend(a[1..], b);
    } else {
      assert a + b == b;
    }
  }

  /** One attempt-and-sleep pair at the head of a trace. */
  lemma PairHead(s: Slot, success: bool, seconds: int, rest: seq<Event>)
    ensures Attempts([Attempt(s, success), Sleep(seconds)] + rest) == [s] + Attempts(rest)
    ensures Successes([Attempt(s, success), Sleep(seconds)] + rest) == (if success then 1 else 0) + Successes(rest)
  {
    var t := [Attempt(s, success), Sleep(seconds)] + rest;
    assert t[1..][1..] == rest;
  }

  /** With fewer than BurstLimit successes in total, every slot is attempted. */
  lemma {:induction false} RunAttemptsAll(slots: seq<Slot>, sendPost: Slot -> bool, sent: nat, delay: int)
    requires sent + CountOk(slots, sendPost) < BurstLimit
    ensures Attempts(Run(slots, sendPost, sent, delay)) == slots
    decreases |slots|
  {
    if slots != [] {
      var s := slots[0];
      var next := if sendPost(s) then sent + 1 else sent;
      RunAttemptsAll(slots[1..], sendPost, next, delay);
      PairHead(s, sendPost(s), PacingSeconds, Run(slots[1..], sendPost, next, delay));
    }
  }

  /** Once BurstLimit sends can succeed, the round attempts exactly the slots up to
      and including the one whose success reaches the limit, and none after it. */
  lemma {:induction false} RunStopsAtLimit(slots: seq<Slot>, sendPost: Slot -> bool, sent: nat, delay: int)
    requires sent < BurstLimit <= sent + CountOk(slots, sendPost)
    ensures exists n ::
              && 0 < n <= |slots| && Attempts(Run(slots, sendPost, sent, delay)) == slots[..n]
              && sendPost(slots[n - 1]) && sent + CountOk(slots[..n], sendPost) == BurstLimit
    decreases |slots|
  {
    var s := slots[0];
    var success := sendPost(s);
    var trace := Run(slots, sendPost, sent, delay);
    if success && sent + 1 >= BurstLimit {
      assert trace == [Attempt(s, true), Sleep(delay)] + [];
      PairHead(s, true, delay, []);
      StopsFirst(slots, sendPost, sent, Attempts(trace));
      assert slots[1 - 1] == s;
    } else {
      var next := if success then sent + 1 else sent;
      var tail := Run(slots[1..], sendPost, next, delay);
      assert trace == [Attempt(s, success), Sleep(PacingSeconds)] + tail;
      RunStopsAtLimit(slots[1..], sendPost, next, delay);
      var m :| && 0 < m <= |slots[1..]| && Attempts(tail) == slots[1..][..m]
               && sendPost(slots[1..][m - 1]) && next + CountOk(slots[1..][..m], sendPost) == BurstLimit;
      PairHead(s, success, PacingSeconds, tail);
      StopsStep(slots, sendPost, sent, next, m, Attempts(trace), Attempts(tail));
      assert slots[m + 1 - 1] == slots[m];
    }
  }

  /** The round that stops at its first slot attempts just that slot. */
  lemma StopsFirst(slots: seq<Slot>, sendPost: Slot -> bool, sent: nat, attempted: seq<Slot>)
    requires slots != [] && sendPost(slots[0]) && sent < BurstLimit <= sent + 1
    requires attempted == [slots[0]] + []
    ensures attempted == slots[..1] && sent + CountOk(slots[..1], sendPost) == BurstLimit
  {
    CountOkPrefix(slots, sendPost, 1);
    assert slots[1..][..0] == [];
  }

  /** The slots attempted after the first one carry over from the rest of the round. */
  lemma StopsStep(slots: seq<Slot>, sendPost: Slot -> bool, sent: nat, next: nat, m: nat,
                  attempted: seq<Slot>, later: seq<Slot>)
    requires 0 < m < |slots|
    requires next == sent + (if sendPost(slots[0]) then 1 else 0)
    requires attempted == [slots[0]] + later && later == slots[1..][..m]
    requires sendPost(slots[1..][m - 1]) && next + CountOk(slots[1..][..m], sendPost) == BurstLimit
    ensures attempted == slots[..m + 1] && sendPost(slots[m])
    ensures sent + CountOk(slots[..m + 1], sendPost) == BurstLimit
  {
    CountOkPrefix(slots, sendPost, m + 1);
    assert slots[..m + 1] == [slots[0]] + slots[1..][..m];
    assert slots[m] == slots[1..][m - 1];
  }

  /** Counting the successes of a non-empty prefix starts with its first slot. */
  lemma CountOkPrefix(slots: seq<Slot>, sendPost: Slot -> bool, k: nat)
    requires 0 < k <= |slots|
    ensures CountOk(slots[..k], sendPost) == (if sendPost(slots[0]) then 1 else 0) + CountOk(slots[1..][..k - 1], sendPost)
  {
    var p := slots[..k];
    assert p[0] == slots[0];
    assert p[1..] == slots[1..][..k - 1];
  }

  /** The sends that succeed in a round number BurstLimit, or all of them when fewer
      can succeed: with five successful entries exactly three are sent. */
  lemma {:induction false} RunSuccesses(slots: seq<Slot>, sendPost: Slot -> bool, sent: nat, delay: int)
    requires sent < BurstLimit
    ensures sent + Successes(Run(slots, sendPost, sent, delay)) == Text.Min(BurstLimit, sent + CountOk(slots, sendPost))
    decreases |slots|
  {
    if slots != [] {
      var s := slots[0];
      var success := sendPost(s);
      if success && sent + 1 >= BurstLimit {
        PairHead(s, true, delay, []);
        assert [Attempt(s, true), Sleep(delay)] + [] == [Attempt(s, true), Sleep(delay)];
      } else {
        var next := if success then sent + 1 else sent;
        RunSuccesses(slots[1..], sendPost, next, delay);
        PairHead(s, success, PacingSeconds, Run(slots[1..], sendPost, next, delay));
      }
    }
  }

  /** The trace is attempt, sleep, attempt, sleep, ...: the j-th attempt is the j-th
      slot with its outcome, and the sleep after it is `delay` when that attempt
      brings the successes to the burst limit and the pacing delay otherwise. */
  lemma {:induction false} RunPacing(slots: seq<Slot>, sendPost: Slot -> bool, sent: nat, delay: int, j: nat)
    requires sent < BurstLimit
    requires j < |Attempts(Run(slots, sendPost, sent, delay))|
    ensures |Run(slots, sendPost, sent, delay)| == 2 * |Attempts(Run(slots, sendPost, sent, delay))|
    ensures j < |slots|
    ensures Run(slots, sendPost, sent, delay)[2 * j] == Attempt(slots[j], sendPost(slots[j]))
    ensures Run(slots, sendPost, sent, delay)[2 * j + 1] ==
      Sleep(if sent + CountOk(slots[..j + 1], sendPost) >= BurstLimit then delay else PacingSeconds)
    decreases |slots|
  {
    RunCountPaired(slots, sendPost, sent, delay);
    var s := slots[0];
    var success := sendPost(s);
    var trace := Run(slots, sendPost, sent, delay);
    if success && sent + 1 >= BurstLimit {
      assert trace == [Attempt(s, true), Sleep(delay)] + [];
      PairHead(s, true, delay, []);
      PacingFirst(slots, sendPost, sent, delay, trace, []);
    } else {
      var next := if success then sent + 1 else sent;
      var tail := Run(slots[1..], sendPost, next, delay);
      assert trace == [Attempt(s, success), Sleep(PacingSeconds)] + tail;
      PairHead(s, success, PacingSeconds, tail);
      if j == 0 {
        PacingFirst(slots, sendPost, sent, delay, trace, tail);
      } else {
        RunCountPaired(slots[1..], sendPost, next, delay);
        RunPacing(slots[1..], sendPost, next, delay, j - 1);
        PacingStep(slots, sendPost, sent, next, delay, j, trace, tail);
      }
    }
  }

  /** The pacing of the first attempt of a round. */
  lemma PacingFirst(slots: seq<Slot>, sendPost: Slot -> bool, sent: nat, delay: int,
                    trace: seq<Event>, tail: seq<Event>)
    requires slots != [] && sent < BurstLimit
    requires trace == [Attempt(slots[0], sendPost(slots[0])),
                       Sleep(if sendPost(slots[0]) && sent + 1 >= BurstLimit then delay else PacingSeconds)] + tail
    ensures trace[0] == Attempt(slots[0], sendPost(slots[0]))
    ensures trace[1] == Sleep(if sent + CountOk(slots[..1], sendPost) >= BurstLimit then delay else PacingSeconds)
  {
    CountOkPrefix(slots, sendPost, 1);
    assert slots[1..][..0] == [];
  }

  /** The pacing of the j-th attempt carried over from the rest of the round. */
  lemma PacingStep(slots: seq<Slot>, sendPost: Slot -> bool, sent: nat, next: nat, delay: int, j: nat,
                   trace: seq<Event>, tail: seq<Event>)
    requires 0 < j < |slots|
    requires next == sent + (if sendPost(slots[0]) then 1 else 0)
    requires trace == [Attempt(slots[0], sendPost(slots[0])), Sleep(PacingSeconds)] + tail
    requires 2 * (j - 1) + 1 < |tail|
    requires tail[2 * (j - 1)] == Attempt(slots[1..][j - 1], sendPost(slots[1..][j - 1]))
    requires tail[2 * (j - 1) + 1] ==
      Sleep(if next + CountOk(slots[1..][..j - 1 + 1], sendPost) >= BurstLimit then delay else PacingSeconds)
    ensures trace[2 * j] == Attempt(slots[j], sendPost(slots[j]))
    ensures trace[2 * j + 1] ==
      Sleep(if sent + CountOk(slots[..j + 1], sendPost) >= BurstLimit then delay else PacingSeconds)
  {
    CountOkPrefix(slots, sendPost, j + 1);
    assert slots[j] == slots[1..][j - 1];
    var k := 2 * (j - 1);
    assert 2 * j == k + 2 && 2 * j + 1 == k + 3;
    assert trace[k + 2] == tail[k] && trace[k + 3] == tail[k + 1];
  }

  /** Every attempt in a trace is followed by exactly one sleep. */
  lemma {:induction false} RunCountPaired(slots: seq<Slot>, sendPost: Slot -> bool, sent: nat, delay: int)
    ensures |Run(slots, sendPost, sent, delay)| == 2 * |Attempts(Run(slots, sendPost, sent, delay))|
    decreases |slots|
  {
    if slots != [] {
      var s := slots[0];
      var success := sendPost(s);
      if success && sent + 1 >= BurstLimit {
        PairHead(s, true, delay, []);
        assert [Attempt(s, true), Sleep(delay)] + [] == [Attempt(s, true), Sleep(delay)];
      } else {
        var next := if success then sent + 1 else sent;
        RunCountPaired(slots[1..], sendPost, next, delay);
        PairHead(s, success, PacingSeconds, Run(slots[1..], sendPost, next, delay));
      }
    }
  }

  /** Unfolding the walk at an existing entry. */
  lemma SlotsFromCons<E>(feeds: seq<seq<E>>, maxLen: nat, i: nat, f: nat)
    requires f < |feeds| && i < |feeds[f]| && i < maxLen
    ensures SlotsFrom(feeds, maxLen, i, f) == [Slot(i, f)] + SlotsFrom(feeds, maxLen, i, f + 1)
  {
  }

  /** The walk passes over a feed too short for the row. */
  lemma SlotsFromSkip<E>(feeds: seq<seq<E>>, maxLen: nat, i: nat, f: nat)
    requires f < |feeds| && |feeds[f]| <= i < maxLen
    ensures SlotsFrom(feeds, maxLen, i, f) == SlotsFrom(feeds, maxLen, i, f + 1)
  {
    assert [] + SlotsFrom(feeds, maxLen, i, f + 1) == SlotsFrom(feeds, maxLen, i, f + 1);
  }

  /** At the end of a row the walk goes on with the next row. */
  lemma SlotsFromNextRow<E>(feeds: seq<seq<E>>, maxLen: nat, i: nat)
    requires i < maxLen
    ensures SlotsFrom(feeds, maxLen, i, |feeds|) == SlotsFrom(feeds, maxLen, i + 1, 0)
  {
  }

  /** Unfolding the round at its next slot. */
  lemma RunCons(s: Slot, rest: seq<Slot>, sendPost: Slot -> bool, sent: nat, delay: int)
    ensures Run([s] + rest, sendPost, sent, delay) ==
      if sendPost(s) && sent + 1 >= BurstLimit then [Attempt(s, true), Sleep(delay)]
      else [Attempt(s, sendPost(s)), Sleep(PacingSeconds)] + Run(rest, sendPost, if sendPost(s) then sent + 1 else sent, delay)
  {
    assert ([s] + rest)[0] == s && ([s] + rest)[1..] == rest;
  }

  /** The successes in one attempt-and-sleep pair. */
  lemma PairSuccesses(s: Slot, success: bool, seconds: int)
    ensures Successes([Attempt(s, success), Sleep(seconds)]) == if success then 1 else 0
  {
    PairHead(s, success, seconds, []);
    assert [Attempt(s, success), Sleep(seconds)] + [] == [Attempt(s, success), Sleep(seconds)];
  }

  /** When every send succeeds, the count of successes is the number of slots. */
  lemma {:induction false} CountOkAll(slots: seq<Slot>, sendPost: Slot -> bool)
    requires forall s :: sendPost(s)
    ensures CountOk(slots, sendPost) == |slots|
  {
    if slots != [] {
      CountOkAll(slots[1..], sendPost);
    }
  }

  /** When every entry would be sent, a round of at least three entries attempts
      exactly the first three (so of five entries, the last two wait for the next
      cycle) and ends with the burst pause. */
  lemma BurstAllSucceed(slots: seq<Slot>, sendPost: Slot -> bool, delay: int)
    requires forall s :: sendPost(s)
    requires |slots| >= BurstLimit
    ensures Attempts(Run(slots, sendPost, 0, delay)) == slots[..BurstLimit]
    ensures Successes(Run(slots, sendPost, 0, delay)) == BurstLimit
  {
    CountOkAll(slots, sendPost);
    RunStopsAtLimit(slots, sendPost, 0, delay);
    var n :| && 0 < n <= |slots| && Attempts(Run(slots, sendPost, 0, delay)) == slots[..n]
             && sendPost(slots[n - 1]) && CountOk(slots[..n], sendPost) == BurstLimit;
    CountOkAll(slots[..n], sendPost);
    RunSuccesses(slots, sendPost, 0, delay);
  }

  /** The inner loop's step at the slot whose success reaches the burst limit: the
      attempt and the burst pause complete the round. */
  lemma StepAtLimit(before: seq<Event>, s: Slot, rest: seq<Slot>, sendPost: Slot -> bool, sent: nat, delay: int, whole: seq<Event>)
    requires before + Run([s] + rest, sendPost, sent, delay) == whole
    requires sendPost(s) && sent + 1 >= BurstLimit
    ensures before + [Attempt(s, true), Sleep(delay)] == whole
    ensures Successes(before + [Attempt(s, true), Sleep(delay)]) == Successes(before) + 1
  {
    RunCons(s, rest, sendPost, sent, delay);
    SuccessesAppend(before, [Attempt(s, true), Sleep(delay)]);
    PairSuccesses(s, true, delay);
  }

  /** The inner loop's step at any other attempted slot: after the attempt and the
      pacing sleep, the rest of the round is what remains to do. */
  lemma StepOn(before: seq<Event>, s: Slot, rest: seq<Slot>, sendPost: Slot -> bool, sent: nat, next: nat, delay: int, whole: seq<Event>)
    requires before + Run([s] + rest, sendPost, sent, delay) == whole
    requires !(sendPost(s) && sent + 1 >= BurstLimit)
    requires next == if sendPost(s) then sent + 1 else sent
    ensures (before + [Attempt(s, sendPost(s)), Sleep(PacingSeconds)]) + Run(rest, sendPost, next, delay) == whole
    ensures Successes(before + [Attempt(s, sendPost(s)), Sleep(PacingSeconds)]) == Successes(before) + (next - sent)
  {
    RunCons(s, rest, sendPost, sent, delay);
    var pair := [Attempt(s, sendPost(s)), Sleep(PacingSeconds)];
    var tail := Run(rest, sendPost, next, delay);
    assert before + (pair + tail) == (before + pair) + tail;
    SuccessesAppend(before, pair);
    PairSuccesses(s, sendPost(s), PacingSeconds);
  }

  /** `main_loop` lines 177-199: one round over the feeds' entry lists. The trace is the
      round's specification applied to the schedule, and the counter equals the
      successful sends in it, never more than BurstLimit. */
  method RunRound<E>(feeds: seq<seq<E>>, sendPost: Slot -> bool, delaySeconds: int)
    returns (trace: seq<Event>, sentInThisRound: nat)
    requires |feeds| > 0
    ensures trace == Run(Schedule(feeds), sendPost, 0, delaySeconds)
    ensures sentInThisRound == Successes(trace) <= BurstLimit
  {
    var maxLen := MaxLen(feeds);
    ghost var whole := Run(Schedule(feeds), sendPost, 0, delaySeconds);
    ghost var todo := Schedule(feeds);
    assert SlotsFrom(feeds, maxLen, maxLen, 0) == [];
    trace := [];
    sentInThisRound := 0;
    var i := 0;
    while i < maxLen
      invariant 0 <= i <= maxLen
      invariant sentInThisRound < BurstLimit && sentInThisRound == Successes(trace)
      invariant todo == SlotsFrom(feeds, maxLen, i, 0)
      invariant trace + Run(todo, sendPost, sentInThisRound, delaySeconds) == whole
    {
      var f := 0;
      while f < |feeds|
        invariant 0 <= f <= |feeds|
        invariant sentInThisRound < BurstLimit && sentInThisRound == Successes(trace)
        invariant todo == SlotsFrom(feeds, maxLen, i, f)
        invariant trace + Run(todo, sendPost, sentInThisRound, delaySeconds) == whole
      {
        if i < |feeds[f]| {
          var slot := Slot(i, f);
          ghost var before, rest, sent := trace, SlotsFrom(feeds, maxLen, i, f + 1), sentInThisRound;
          SlotsFromCons(feeds, maxLen, i, f);
          var success := sendPost(slot);
          if success {
            sentInThisRound := sentInThisRound + 1;
            if sentInThisRound >= BurstLimit {
              trace := trace + [Attempt(slot, true), Sleep(delaySeconds)];
              StepAtLimit(before, slot, rest, sendPost, sent, delaySeconds, whole);
              break break;
            }
          }
          trace := trace + [Attempt(slot, success), Sleep(PacingSeconds)];
          StepOn(before, slot, rest, sendPost, sent, sentInThisRound, delaySeconds, whole);
          todo := rest;
        } else {
          SlotsFromSkip(feeds, maxLen, i, f);
        }
        f := f + 1;
      }
      SlotsFromNextRow(feeds, maxLen, i);
      i := i + 1;
    }
    assert trace + [] == trace;
  }
}
