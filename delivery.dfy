/** The choice of Telegram call in `send_post` and the truncation of its text. */
module Delivery {
  import opened Wrappers
  import Text

  /** One of the three sends; a photo group's caption goes on its first photo. */
  datatype Delivery =
    | Video(url: string, caption: string)
    | PhotoGroup(urls: seq<string>, caption: string)
    | Message(text: string)

  const CaptionLimit: nat := 1024
  const MessageLimit: nat := 4096
  const MaxGroupPhotos: nat := 10

  /** The HTML message: bold title, a blank line, then the text. */
  function FullText(title: string, text: string): string {
    "<b>" + title + "</b>\n\n" + text
  }

  /** `if video:` -- a missing or empty video URL is not a video. */
  predicate HasVideo(video: Option<string>) {
    video.Some? && video.value != ""
  }

  /** A video takes precedence over photos; otherwise a non-empty photo list goes out
      as a group of its first ten URLs; otherwise a plain message. Captions are the
      first 1024 characters of the full text and a message its first 4096. */
  function ChooseDelivery(fullText: string, photos: seq<string>, video: Option<string>): (d: Delivery)
    ensures d.Video? <==> HasVideo(video)
    ensures d.Video? ==> d.url == video.value
    ensures d.PhotoGroup? <==> !HasVideo(video) && photos != []
    ensures d.PhotoGroup? ==> d.urls <= photos && |d.urls| == Text.Min(|photos|, MaxGroupPhotos) && d.urls != []
    ensures !d.Message? ==> d.caption <= fullText && |d.caption| == Text.Min(|fullText|, CaptionLimit)
    ensures d.Message? ==> d.text <= fullText && |d.text| == Text.Min(|fullText|, MessageLimit)
  {
    if HasVideo(video) then
      Video(video.value, Text.Truncate(fullText, CaptionLimit))
    else if photos != [] then
      PhotoGroup(Text.Truncate(photos, MaxGroupPhotos), Text.Truncate(fullText, CaptionLimit))
    else
      Message(Text.Truncate(fullText, MessageLimit))
  }
}
