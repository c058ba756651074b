/** The rolling history of published texts (`sent_posts`) and the duplicate
    scan over it. Instants are UTC datetimes counted in microseconds. */
module History {

  /** One published (rewritten) text and the instant it was recorded. */
  datatype Record = Record(text: string, timestamp: int)

  const MaxHistoryHours: int := 24
  const MicrosPerHour: int := 3_600_000_000
  /** `timedelta(hours=MAX_HISTORY_HOURS)` */
  const Window: int := MaxHistoryHours * MicrosPerHour
  /** Strictly exceeding this similarity makes a candidate a duplicate. */
  const DuplicateThreshold: real := 0.60

  /** The duplicate scan skips a record only when it is strictly older than the window,
      so a record aged exactly `Window` is still compared. */
  predicate Compared(r: Record, now: int) {
    !(now - r.timestamp > Window)
  }

  /** The prune keeps a record only when it is strictly newer than the cutoff,
      so a record aged exactly `Window` is dropped. */
  predicate KeptAfter(r: Record, cutoff: int) {
    r.timestamp > cutoff
  }

  /** The records of `s` that the prune keeps, in their original order. */
  function Pruned(s: seq<Record>, cutoff: int): (r: seq<Record>)
    ensures |r| <= |s|
    ensures forall k :: 0 <= k < |r| ==> KeptAfter(r[k], cutoff)
  {
    if s == [] then []
    else
      var last := s[|s| - 1];
      Pruned(s[..|s| - 1], cutoff) + (if KeptAfter(last, cutoff) then [last] else [])
  }

  /** Pruning distributes over concatenation: it never reorders records. */
  lemma {:induction false} PrunedAppend(a: seq<Record>, b: seq<Record>, cutoff: int)
    ensures Pruned(a + b, cutoff) == Pruned(a, cutoff) + Pruned(b, cutoff)
    decreases |b|
  {
    if b == [] {
      assert a + b == a;
    } else {
      var init := b[..|b| - 1];
      assert (a + b)[..|a + b| - 1] == a + init;
      assert (a + b)[|a + b| - 1] == b[|b| - 1];
      PrunedAppend(a, init, cutoff);
    }
  }

  /** A record survives the prune exactly when it was there and is newer than the cutoff. */
  lemma {:induction false} PrunedMembers(s: seq<Record>, cutoff: int, x: Record)
    ensures x in Pruned(s, cutoff) <==> x in s && KeptAfter(x, cutoff)
  {
    if s != [] {
      var init := s[..|s| - 1];
      assert s == init + [s[|s| - 1]];
      PrunedMembers(init, cutoff, x);
    }
  }

  /** Every record of the pruned history is one of the input's: the prune adds nothing. */
  lemma PrunedFromInput(s: seq<Record>, cutoff: int, k: nat)
    requires k < |Pruned(s, cutoff)|
    ensures Pruned(s, cutoff)[k] in s && KeptAfter(Pruned(s, cutoff)[k], cutoff)
  {
    PrunedMembers(s, cutoff, Pruned(s, cutoff)[k]);
  }

  /** A history in which every record is newer than the cutoff is left as it is. */
  lemma {:induction false} PrunedAllFresh(s: seq<Record>, cutoff: int)
    requires forall k :: 0 <= k < |s| ==> KeptAfter(s[k], cutoff)
    ensures Pruned(s, cutoff) == s
  {
    if s != [] {
      var init := s[..|s| - 1];
      assert s == init + [s[|s| - 1]];
      PrunedAllFresh(init, cutoff);
    }
  }

  /** The two window tests agree except on a record aged exactly `Window`,
      which the scan still compares and the prune drops. */
  lemma WindowBoundary(r: Record, now: int)
    ensures Compared(r, now) && !KeptAfter(r, now - Window) <==> now - r.timestamp == Window
    ensures now - r.timestamp > Window ==> !Compared(r, now) && !KeptAfter(r, now - Window)
    ensures now - r.timestamp < Window ==> Compared(r, now) && KeptAfter(r, now - Window)
  {
  }

  /** Some record the scan compares is strictly more similar to `text` than the threshold. */
  predicate Duplicate(history: seq<Record>, text: string, now: int, sim: (string, string) -> real) {
    exists k :: 0 <= k < |history| && Compared(history[k], now) && sim(text, history[k].text) > DuplicateThreshold
  }

  /** Against a one-record history, a candidate is a duplicate exactly when that
      record is inside the window and its similarity strictly exceeds the threshold;
      similarity equal to the threshold is not a duplicate. */
  lemma DuplicateSingle(r: Record, text: string, now: int, sim: (string, string) -> real)
    ensures Duplicate([r], text, now, sim) <==> Compared(r, now) && sim(text, r.text) > DuplicateThreshold
  {
    if Compared(r, now) && sim(text, r.text) > DuplicateThreshold {
      assert [r][0] == r;
    }
  }

  /** The order of the history does not affect the verdict. */
  lemma DuplicateAppend(a: seq<Record>, b: seq<Record>, text: string, now: int, sim: (string, string) -> real)
    ensures Duplicate(a + b, text, now, sim) <==> Duplicate(a, text, now, sim) || Duplicate(b, text, now, sim)
  {
    if Duplicate(a, text, now, sim) {
      var k :| 0 <= k < |a| && Compared(a[k], now) && sim(text, a[k].text) > DuplicateThreshold;
      assert (a + b)[k] == a[k];
    }
    if Duplicate(b, text, now, sim) {
      var k :| 0 <= k < |b| && Compared(b[k], now) && sim(text, b[k].text) > DuplicateThreshold;
      assert (a + b)[|a| + k] == b[k];
    }
    if Duplicate(a + b, text, now, sim) {
      var k :| 0 <= k < |a + b| && Compared((a + b)[k], now) && sim(text, (a + b)[k].text) > DuplicateThreshold;
      if k < |a| {
        assert (a + b)[k] == a[k];
      } else {
        assert (a + b)[k] == b[k - |a|];
      }
    }
  }

  /** The in-memory list `sent_posts`, which only this store mutates. */
  class HistoryStore {
    var records: seq<Record>

    /** A store holding the records read at start-up. */
    constructor (loaded: seq<Record>)
      ensures records == loaded
    {
      records := loaded;
    }

    /** `is_duplicate`: scan the history in order, skip records strictly older than
        the window, and answer true at the first record whose similarity strictly
        exceeds the threshold. The history is only read. */
    method IsDuplicate(text: string, now: int, sim: (string, string) -> real) returns (dup: bool)
      ensures dup == Duplicate(records, text, now, sim)
    {
      var k := 0;
      while k < |records|
        invariant 0 <= k <= |records|
        invariant forall j :: 0 <= j < k ==> !(Compared(records[j], now) && sim(text, records[j].text) > DuplicateThreshold)
      {
        var record := records[k];
        if now - record.timestamp > Window {
          k := k + 1;
          continue;
        }
        var similarity := sim(text, record.text);
        if similarity > DuplicateThreshold {
          return true;
        }
        k := k + 1;
      }
      return false;
    }

    /** `save_post_record`: append the new record, then rebuild the list keeping only
        records strictly newer than `now - Window`. The result is the old records that
        survive, in order, followed by the new record, which always survives. */
    method SaveRecord(text: string, now: int)
      modifies this
      ensures records == Pruned(old(records), now - Window) + [Record(text, now)]
      ensures forall k :: 0 <= k < |records| ==> now - records[k].timestamp < Window
    {
      var record := Record(text, now);
      records := records + [record];
      var cutoff := now - Window;
      var freshPosts: seq<Record> := [];
      var k := 0;
      while k < |records|
        invariant 0 <= k <= |records|
        invariant freshPosts == Pruned(records[..k], cutoff)
      {
        assert records[..k + 1][..k] == records[..k];
        if records[k].timestamp > cutoff {
          freshPosts := freshPosts + [records[k]];
        }
        k := k + 1;
      }
      assert records[..k] == old(records) + [record];
      PrunedAppend(old(records), [record], cutoff);
      assert Pruned([record], cutoff) == Pruned([], cutoff) + [record] by {
        assert [record][..0] == [];
      }
      records := freshPosts;
    }
  }
}
