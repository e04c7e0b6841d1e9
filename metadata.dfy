/** The metadata-update request of nowplaying.py: the URL that
    `_send_data_thread` asks the streaming server for, with the sanitised
    `"{text} / {branding}"` as the value of the `song` query parameter. */
module Metadata {
  import opened Sanitizer

  /** Everything of the request URL before the `song` value. */
  function UrlPrefix(mountpoint: string): string
  {
    "https://live.civl.ca:8000/admin/metadata?mount=/" + mountpoint + "&mode=updinfo&song="
  }

  /** The value of the `song` parameter: the whole composed string is
      sanitised, separator included. */
  function SongValue(text: string, branding: string): string
  {
    MakeUrlReady(text + " / " + branding)
  }

  /** The metadata-update URL for `text` on `mountpoint`. */
  function MetadataUrl(mountpoint: string, text: string, branding: string): string
  {
    UrlPrefix(mountpoint) + SongValue(text, branding)
  }

  /** Sanitising the composed string is sanitising its parts around the
      escaped separator `%20%2F%20`. */
  lemma SongValueParts(text: string, branding: string)
    ensures SongValue(text, branding) == MakeUrlReady(text) + "%20%2F%20" + MakeUrlReady(branding)
  {
    var sep := " / ";
    MakeUrlReadyIsEncode(text + sep + branding);
    EncodeConcat(text + sep, branding);
    EncodeConcat(text, sep);
    EncodeSeparator(sep);
    MakeUrlReadyIsEncode(text);
    MakeUrlReadyIsEncode(branding);
  }

  /** The separator `" / "` encodes to `%20%2F%20`. The separator is a
      parameter described by its characters, not the literal itself: with
      the literal in scope the verifier evaluates `Encode` on it eagerly,
      which costs many times more than these three unfolding steps. */
  lemma EncodeSeparator(sep: string)
    requires |sep| == 3 && sep[0] == ' ' && sep[1] == '/' && sep[2] == ' '
    ensures Encode(sep) == "%20%2F%20"
  {
    assert Encode(sep) == EncodeChar(sep[0]) + Encode(sep[1..]);
    assert Encode(sep[1..]) == EncodeChar(sep[1]) + Encode(sep[2..]);
    assert Encode(sep[2..]) == EncodeChar(sep[2]) + Encode(sep[3..]);
  }

  /** The URL is the fixed prefix followed by the song value; the song value
      holds no literal `/`, `&`, `=` or `?` that the server's query parser
      could misread, and it decodes back to `"{text} / {branding}"`. */
  lemma MetadataUrlSong(mountpoint: string, text: string, branding: string)
    ensures var url, p := MetadataUrl(mountpoint, text, branding), UrlPrefix(mountpoint);
      p <= url &&
      Decode(url[|p|..]) == Some(text + " / " + branding) &&
      forall i :: |p| <= i < |url| ==> url[i] != '/' && url[i] != '&' && url[i] != '=' && url[i] != '?'
  {
    var url, p := MetadataUrl(mountpoint, text, branding), UrlPrefix(mountpoint);
    var composed := text + " / " + branding;
    var song := MakeUrlReady(composed);
    assert url == p + song;
    assert url[|p|..] == song;
    MakeUrlReadyRoundTrip(composed);
    MakeUrlReadyNoRawReserved(composed);
    forall i | |p| <= i < |url|
      ensures url[i] != '/' && url[i] != '&' && url[i] != '=' && url[i] != '?'
    {
      var c := song[i - |p|];
      assert url[i] == c;
      assert c == '%' || !IsReserved(c);
    }
  }

  /** Two requests for the same mountpoint and branding are equal only when
      their texts are. */
  lemma MetadataUrlInjective(mountpoint: string, t1: string, t2: string, branding: string)
    requires MetadataUrl(mountpoint, t1, branding) == MetadataUrl(mountpoint, t2, branding)
    ensures t1 == t2
  {
    var p := UrlPrefix(mountpoint);
    var u1, u2 := MetadataUrl(mountpoint, t1, branding), MetadataUrl(mountpoint, t2, branding);
    assert u1[|p|..] == SongValue(t1, branding);
    assert u2[|p|..] == SongValue(t2, branding);
    MakeUrlReadyInjective(t1 + " / " + branding, t2 + " / " + branding);
    assert t1 == (t1 + " / " + branding)[..|t1|];
    assert |t1| == |t2|;
    assert t2 == (t2 + " / " + branding)[..|t2|];
  }
}
