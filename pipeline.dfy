/** `send_post`: one entry through rewrite, duplicate check, media extraction,
    delivery and the history update. The rewriting service's reply, the similarity
    of two texts, the outcome of the Telegram call and the two clock readings are
    inputs. */
module Pipeline {
  import opened Wrappers
  import History
  import Media
  import Rewrite
  import Delivery
  import Text
  import Round

  /** `entry.get('title', '')` */
  function Title(entry: Media.Entry): string {
    entry.title.GetOr("")
  }

  /** `clean_html(entry.summary) if 'summary' in entry else ''` */
  function RawText(entry: Media.Entry): string {
    if entry.summary.Some? then entry.summary.value.plainText else ""
  }

  /** The Telegram call `send_post` makes for this entry once its text is final. */
  function DeliveryFor(entry: Media.Entry, title: string, text: string): Delivery.Delivery {
    Delivery.ChooseDelivery(Delivery.FullText(title, text),
      Media.PhotoUrls(Media.ImgSrcs(entry)), Media.LastVideoUrl(Media.Enclosures(entry)))
  }

  /** Returns true exactly when the rewritten text is not a duplicate at `checkTime`
      and the delivery call succeeded; only then is the history changed, by one
      `SaveRecord` of the rewritten text at `saveTime`. A duplicate or a failed
      delivery returns false and leaves the history as it was. An exception from the
      rewriting step escapes with the history unchanged. `call` is the one Telegram
      call made: none after an escaped rewrite or for a duplicate, otherwise the call
      chosen for the rewritten entry. */
  method SendPost(store: History.HistoryStore, entry: Media.Entry, reply: Rewrite.Reply,
                  sim: (string, string) -> real, delivered: Delivery.Delivery -> bool,
                  checkTime: int, saveTime: int) returns (r: Outcome<bool>, call: Option<Delivery.Delivery>)
    modifies store
    ensures var rw := Rewrite.RewriteWithGemini(Title(entry), RawText(entry), reply);
      && (call.Some? <==> rw.Returned? && !History.Duplicate(old(store.records), rw.value.1, checkTime, sim))
      && (call.Some? ==> call.value == DeliveryFor(entry, rw.value.0, rw.value.1))
      && (rw.Raised? ==> r == Raised)
      && (rw.Returned? ==> r == Returned(call.Some? && delivered(call.value)))
      && (r == Returned(true) ==>
            store.records == History.Pruned(old(store.records), saveTime - History.Window) + [History.Record(rw.value.1, saveTime)])
      && (r != Returned(true) ==> store.records == old(store.records))
  {
    var rewritten := Rewrite.RewriteWithGemini(Title(entry), RawText(entry), reply);
    if rewritten.Raised? {
      return Raised, None;
    }
    var (uniqTitle, uniqText) := rewritten.value;
    var fullText := Delivery.FullText(uniqTitle, uniqText);

    var dup := store.IsDuplicate(uniqText, checkTime, sim);
    if dup {
      return Returned(false), None;
    }

    var photos, video := Media.ExtractMedia(entry);
    var chosen := Delivery.ChooseDelivery(fullText, photos, video);
    if !delivered(chosen) {
      return Returned(false), Some(chosen);
    }
    store.SaveRecord(uniqText, saveTime);
    return Returned(true), Some(chosen);
  }

  /** The history grows only on a successful send, and then by exactly the one new
      record, which is the last one; every other stored record is an older one. */
  lemma SuccessAddsOneRecord(before: seq<History.Record>, text: string, saveTime: int, x: History.Record)
    ensures var after := History.Pruned(before, saveTime - History.Window) + [History.Record(text, saveTime)];
      && after[|after| - 1] == History.Record(text, saveTime)
      && |after| <= |before| + 1
      && (x in after <==> x == History.Record(text, saveTime) || (x in before && saveTime - x.timestamp < History.Window))
  {
    History.PrunedMembers(before, saveTime - History.Window, x);
  }

  /** The first entry of the end-to-end scenario: title "X", body "hello world", no media. */
  function ScenarioEntry(): Media.Entry {
    Media.Entry(Some("X"), Some(Media.Summary("hello world", [])), None)
  }

  /** The service's answer in the scenario: 200 with the groups "X2" and "Hello World!". */
  function ScenarioReply(): Rewrite.Reply {
    Rewrite.Response(200, Rewrite.Json(Rewrite.Match("X2", "Hello World!")))
  }

  /** In the scenario the rewrite yields ("X2", "Hello World!"). */
  lemma ScenarioRewrite()
    ensures Rewrite.RewriteWithGemini(Title(ScenarioEntry()), RawText(ScenarioEntry()), ScenarioReply())
      == Returned(("X2", "Hello World!"))
  {
    Rewrite.GroupsKeptWhenTrimmed("X", "hello world", "X2", "Hello World!");
  }

  /** In the scenario the entry goes out as one plain message carrying the whole HTML text. */
  lemma ScenarioDelivery()
    ensures DeliveryFor(ScenarioEntry(), "X2", "Hello World!") == Delivery.Message("<b>X2</b>\n\nHello World!")
  {
    var full := Delivery.FullText("X2", "Hello World!");
    assert full == "<b>X2</b>\n\nHello World!";
    assert Media.PhotoUrls(Media.ImgSrcs(ScenarioEntry())) == [];
    assert Media.LastVideoUrl(Media.Enclosures(ScenarioEntry())) == None;
    assert Text.Truncate(full, Delivery.MessageLimit) == full;
  }

  /** The scenario's round: one feed holding the entry and one empty feed. The
      schedule is that single entry, and since its send succeeds the round ends with
      one post sent. */
  lemma ScenarioRound(sendPost: Round.Slot -> bool, delay: int)
    requires sendPost(Round.Slot(0, 0))
    ensures Round.Schedule([[ScenarioEntry()], []]) == [Round.Slot(0, 0)]
    ensures Round.Successes(Round.Run(Round.Schedule([[ScenarioEntry()], []]), sendPost, 0, delay)) == 1
  {
    var feeds := [[ScenarioEntry()], []];
    assert Round.MaxLen(feeds) == 1;
    assert Round.SlotsFrom(feeds, 1, 1, 0) == [];
    assert Round.SlotsFrom(feeds, 1, 0, 2) == [];
    assert Round.SlotsFrom(feeds, 1, 0, 1) == [];
    assert Round.SlotsFrom(feeds, 1, 0, 0) == [Round.Slot(0, 0)];
    Round.RunSuccesses([Round.Slot(0, 0)], sendPost, 0, delay);
  }

  /** With an empty history the scenario's entry is sent as one message, and the
      history then holds exactly its rewritten text. */
  method EndToEnd(sim: (string, string) -> real, now: int)
    returns (sent: Outcome<bool>, call: Option<Delivery.Delivery>, records: seq<History.Record>)
    ensures sent == Returned(true)
    ensures call == Some(Delivery.Message("<b>X2</b>\n\nHello World!"))
    ensures records == [History.Record("Hello World!", now)]
  {
    var store := new History.HistoryStore([]);
    ScenarioRewrite();
    ScenarioDelivery();
    var message := Delivery.Message("<b>X2</b>\n\nHello World!");
    sent, call := SendPost(store, ScenarioEntry(), ScenarioReply(), sim, d => d == message, now, now);
    records := store.records;
  }
}
