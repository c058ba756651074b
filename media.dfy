/** Feed entries as the core sees them, and `extract_media`. HTML parsing is
    abstracted: a summary arrives as its plain text and the `src` attribute of each
    `img` tag (None where the tag has none). */
module Media {
  import opened Wrappers

  /** A media descriptor; either key may be missing. */
  datatype Enclosure = Enclosure(kind: Option<string>, url: Option<string>)

  /** An HTML summary after parsing: `clean_html(summary)` and the `img` sources in document order. */
  datatype Summary = Summary(plainText: string, imgSrcs: seq<Option<string>>)

  /** A feed entry; `None` for a key the entry does not have. */
  datatype Entry = Entry(title: Option<string>, summary: Option<Summary>, enclosures: Option<seq<Enclosure>>)

  /** The `img` sources of the entry, none when it has no summary. */
  function ImgSrcs(e: Entry): seq<Option<string>> {
    if e.summary.Some? then e.summary.value.imgSrcs else []
  }

  /** The enclosures of the entry, none when the key is missing. */
  function Enclosures(e: Entry): seq<Enclosure> {
    e.enclosures.GetOr([])
  }

  /** `if url:` -- a missing or empty `src` is not kept. */
  predicate KeptSrc(src: Option<string>) {
    src.Some? && src.value != ""
  }

  /** `enclosure.get('type', '').startswith('video')` */
  predicate IsVideo(e: Enclosure) {
    "video" <= e.kind.GetOr("")
  }

  /** The URLs of the kept `img` sources, in document order. */
  function PhotoUrls(srcs: seq<Option<string>>): seq<string> {
    if srcs == [] then []
    else
      var last := srcs[|srcs| - 1];
      PhotoUrls(srcs[..|srcs| - 1]) + (if KeptSrc(last) then [last.value] else [])
  }

  /** The `url` of the last video enclosure (itself possibly missing), None without one. */
  function LastVideoUrl(encs: seq<Enclosure>): Option<string> {
    if encs == [] then None
    else if IsVideo(encs[|encs| - 1]) then encs[|encs| - 1].url
    else LastVideoUrl(encs[..|encs| - 1])
  }

  /** The photo list holds exactly the non-empty sources, each non-empty. */
  lemma {:induction false} PhotoUrlsMembers(srcs: seq<Option<string>>, u: string)
    ensures u in PhotoUrls(srcs) <==> u != "" && Some(u) in srcs
  {
    if srcs != [] {
      var init := srcs[..|srcs| - 1];
      assert srcs == init + [srcs[|srcs| - 1]];
      PhotoUrlsMembers(init, u);
    }
  }

  /** The photo list keeps document order: it distributes over concatenation. */
  lemma {:induction false} PhotoUrlsAppend(a: seq<Option<string>>, b: seq<Option<string>>)
    ensures PhotoUrls(a + b) == PhotoUrls(a) + PhotoUrls(b)
    decreases |b|
  {
    if b == [] {
      assert a + b == a;
    } else {
      var init := b[..|b| - 1];
      assert (a + b)[..|a + b| - 1] == a + init;
      assert (a + b)[|a + b| - 1] == b[|b| - 1];
      PhotoUrlsAppend(a, init);
    }
  }

  /** The video is the URL of the last enclosure typed as video, so an earlier video
      is overwritten by a later one; without a video enclosure there is none. */
  lemma {:induction false} LastVideoUrlIsLast(encs: seq<Enclosure>)
    ensures (forall k :: 0 <= k < |encs| ==> !IsVideo(encs[k])) ==> LastVideoUrl(encs) == None
    ensures forall k :: 0 <= k < |encs| && IsVideo(encs[k]) && (forall j :: k < j < |encs| ==> !IsVideo(encs[j])) ==>
      LastVideoUrl(encs) == encs[k].url
  {
    if encs != [] {
      var init := encs[..|encs| - 1];
      LastVideoUrlIsLast(init);
      forall k | 0 <= k < |encs| - 1 ensures encs[k] == init[k] { }
    }
  }

  /** `extract_media`: collect the kept `img` sources in order, and overwrite the
      video with the URL of every video enclosure in turn. */
  method ExtractMedia(entry: Entry) returns (photos: seq<string>, video: Option<string>)
    ensures photos == PhotoUrls(ImgSrcs(entry))
    ensures video == LastVideoUrl(Enclosures(entry))
  {
    photos := [];
    video := None;
    if entry.summary.Some? {
      var srcs := entry.summary.value.imgSrcs;
      var k := 0;
      while k < |srcs|
        invariant 0 <= k <= |srcs|
        invariant photos == PhotoUrls(srcs[..k])
      {
        assert srcs[..k + 1][..k] == srcs[..k];
        var url := srcs[k];
        if url.Some? && url.value != "" {
          photos := photos + [url.value];
        }
        k := k + 1;
      }
      assert srcs[..k] == srcs;
    }
    if entry.enclosures.Some? {
      var encs := entry.enclosures.value;
      var k := 0;
      while k < |encs|
        invariant 0 <= k <= |encs|
        invariant video == LastVideoUrl(encs[..k])
      {
        assert encs[..k + 1][..k] == encs[..k];
        var enclosure := encs[k];
        if "video" <= enclosure.kind.GetOr("") {
          video := enclosure.url;
        }
        k := k + 1;
      }
      assert encs[..k] == encs;
    }
  }
}
