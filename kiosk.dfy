/** The kiosk application: picking the image URL out of the feed,
    re-downloading the image only when that URL changes, and building the
    request that sends the corrected palette to the LED controller. Fetching,
    image decoding and palette extraction are parameters. */
module Kiosk {
  import opened Colorsys
  import opened HexFormat
  import opened Text
  import opened Palette

  datatype Option<T> = None | Some(value: T)

  type Byte = b: int | 0 <= b < 256

  /** One link of a feed entry: its declared media type and its target. */
  datatype Link = Link(mediaType: string, href: string)

  /** A parsed feed: its entries in order, each given by its links. */
  type Feed = seq<seq<Link>>

  /** What looking up the image URL gives: the URL, Python's None when no
      link is an image, or the IndexError the lookup raises. */
  datatype Lookup = Found(url: string) | NoImageLink | IndexError

  predicate IsImageLink(link: Link)
  {
    Contains(link.mediaType, "image")
  }

  /** The first entry's second link once any of its links is an image. */
  function ImageUrl(feed: Feed): (r: Lookup)
    ensures r.Found? ==>
      (|feed| > 0 && |feed[0]| >= 2 && r.url == feed[0][1].href &&
       exists i :: 0 <= i < |feed[0]| && IsImageLink(feed[0][i]))
    ensures r.NoImageLink? <==>
      (|feed| > 0 && forall i :: 0 <= i < |feed[0]| ==> !IsImageLink(feed[0][i]))
    ensures r.IndexError? <==>
      (|feed| == 0 || (|feed[0]| < 2 && exists i :: 0 <= i < |feed[0]| && IsImageLink(feed[0][i])))
  {
    if |feed| == 0 then IndexError
    else if exists i :: 0 <= i < |feed[0]| && IsImageLink(feed[0][i]) then
      if |feed[0]| >= 2 then Found(feed[0][1].href) else IndexError
    else NoImageLink
  }

  /** The URL update_image compares with the current one. */
  function LookedUpUrl(lookup: Lookup): Option<string>
  {
    if lookup.Found? then Some(lookup.url) else None
  }

  /** How one pass of update_image ended. Every failure but LookupFailed
      happens after the current URL has already been overwritten. */
  datatype Outcome = Kept | Replaced | LookupFailed | DownloadFailed | DecodeFailed

  /** The part of the application state update_image reads and writes. */
  datatype Display<Photo> = Display(currentUrl: Option<string>, imageRaw: seq<Byte>, image: Photo)

  /** One pass of update_image on the display state, given the lookup result,
      a download step and a decode-and-fit step (each of which may fail). The
      image is fetched only when the looked-up URL differs from the current
      one, and the current URL always ends up as the looked-up one. */
  function Refresh<Photo>(d: Display<Photo>, lookup: Lookup,
                          fetch: string -> Option<seq<Byte>>,
                          decode: seq<Byte> -> Option<Photo>): (r: (Display<Photo>, Outcome))
    ensures lookup.IndexError? <==> r.1 == LookupFailed
    ensures lookup.IndexError? ==> r.0 == d
    ensures !lookup.IndexError? ==> r.0.currentUrl == LookedUpUrl(lookup)
    ensures r.1 == Kept <==> !lookup.IndexError? && LookedUpUrl(lookup) == d.currentUrl
    ensures r.1 == Kept ==> r.0 == d
    ensures r.0.imageRaw != d.imageRaw ==>
      r.1 in {Replaced, DecodeFailed} && LookedUpUrl(lookup).Some? &&
      fetch(LookedUpUrl(lookup).value) == Some(r.0.imageRaw)
    ensures r.0.image != d.image ==> r.1 == Replaced
    ensures r.1 == Replaced ==> decode(r.0.imageRaw) == Some(r.0.image)
    ensures lookup.NoImageLink? && d.currentUrl != None ==>
      r == (d.(currentUrl := None), DownloadFailed)
    ensures lookup.Found? && d.currentUrl != Some(lookup.url) && fetch(lookup.url).None? ==>
      r == (d.(currentUrl := Some(lookup.url)), DownloadFailed)
    ensures lookup.Found? && d.currentUrl != Some(lookup.url) && fetch(lookup.url).Some? ==>
      var raw := fetch(lookup.url).value;
      r.0.imageRaw == raw &&
      (decode(raw).None? ==> r == (Display(Some(lookup.url), raw, d.image), DecodeFailed)) &&
      (decode(raw).Some? ==> r == (Display(Some(lookup.url), raw, decode(raw).value), Replaced))
  {
    if lookup.IndexError? then (d, LookupFailed)
    else
      var url := LookedUpUrl(lookup);
      if d.currentUrl == url then (d, Kept)
      else
        var d1 := d.(currentUrl := url);
        if url.None? then (d1, DownloadFailed)
        else match fetch(url.value)
          case None => (d1, DownloadFailed)
          case Some(raw) =>
            var d2 := d1.(imageRaw := raw);
            match decode(raw)
            case None => (d2, DecodeFailed)
            case Some(photo) => (d2.(image := photo), Replaced)
  }

  /** A second pass over the same feed downloads nothing and changes nothing,
      unless the first could not look the URL up at all. */
  lemma RefreshSettles<Photo>(d: Display<Photo>, lookup: Lookup,
                              fetch: string -> Option<seq<Byte>>,
                              decode: seq<Byte> -> Option<Photo>)
    requires !lookup.IndexError?
    ensures var first := Refresh(d, lookup, fetch, decode).0;
      Refresh(first, lookup, fetch, decode) == (first, Kept)
  {
  }

  const LedPath := "/pattern?params="

  /** The request sent to the LED controller: the address, the pattern path
      and the hex colours separated by ';'. */
  function RequestUrl(address: string, hexPalette: seq<string>): (url: string)
    ensures |url| >= 7 && url[..7] == "http://"
  {
    "http://" + address + LedPath + Join(";", hexPalette)
  }

  /** The parameter part of the request is the palette strings in order with
      one ';' between neighbours and none at either end, so splitting it at
      ';' gives back the palette. */
  lemma RequestParams(address: string, hexPalette: seq<string>)
    requires |hexPalette| >= 1 && NoneContain(hexPalette, ';')
    ensures var url, prefix := RequestUrl(address, hexPalette), "http://" + address + LedPath;
      |prefix| <= |url| && url[..|prefix|] == prefix &&
      Split(url[|prefix|..], ';') == hexPalette &&
      Count(url[|prefix|..], ';') == |hexPalette| - 1
  {
    var prefix := "http://" + address + LedPath;
    var url := RequestUrl(address, hexPalette);
    assert url == prefix + Join([';'], hexPalette);
    assert url[|prefix|..] == Join([';'], hexPalette);
    SplitJoin(hexPalette, ';');
    JoinCount(hexPalette, ';');
  }

  /** For a palette of n >= 1 colours on the 0-255 scale, the parameter part
      has 7n - 1 characters: n six-digit hex strings in palette order and
      n - 1 separators. */
  lemma LedRequestForPalette(address: string, palette: seq<Rgb>)
    requires |palette| >= 1 && forall i :: 0 <= i < |palette| ==> InRange(palette[i])
    ensures forall i :: 0 <= i < |palette| ==> HsvDefined(palette[i])
    ensures var url, prefix := RequestUrl(address, HexPalette(palette)), "http://" + address + LedPath;
      var params := url[|prefix|..];
      |prefix| <= |url| && url[..|prefix|] == prefix &&
      |params| == 7 * |palette| - 1 && Count(params, ';') == |palette| - 1 &&
      Split(params, ';') == HexPalette(palette) &&
      forall i :: 0 <= i < |palette| ==>
        |Split(params, ';')[i]| == 6 && AllHexDigits(Split(params, ';')[i])
  {
    var hs := HexPalette(palette);
    forall i | 0 <= i < |palette|
      ensures |hs[i]| == 6 && AllHexDigits(hs[i]) && ';' !in hs[i]
    {
      ColorToHexWellFormed(palette[i]);
      assert forall k :: 0 <= k < |hs[i]| ==> hs[i][k] != ';';
    }
    RequestParams(address, hs);
    var prefix := "http://" + address + LedPath;
    assert RequestUrl(address, hs)[|prefix|..] == Join([';'], hs);
    JoinLength(hs, ';', 6);
  }

  /** The application object: the controller address, the refresh period,
      the last parsed feed and the image currently on display. */
  class App<Photo> {
    const wemosAddress: string
    const refreshRate: int
    var feed: Feed
    var currentUrl: Option<string>
    var imageRaw: seq<Byte>
    var image: Photo

    function State(): Display<Photo>
      reads this
    {
      Display(currentUrl, imageRaw, image)
    }

    /** The state the constructor sets up before its first update_image:
        no URL seen yet (the empty string) and the default image. */
    constructor (refreshRateMinutes: int, wemosAddress: string, feed: Feed,
                 defaultRaw: seq<Byte>, defaultImage: Photo)
      ensures this.wemosAddress == wemosAddress
      ensures refreshRate == refreshRateMinutes * 60 * 1000
      ensures this.feed == feed
      ensures State() == Display(Some(""), defaultRaw, defaultImage)
    {
      this.wemosAddress := wemosAddress;
      this.feed := feed;
      refreshRate := refreshRateMinutes * 60 * 1000;
      currentUrl := Some("");
      imageRaw := defaultRaw;
      image := defaultImage;
    }

    /** get_image_url_from_feed: scan the first entry's links and, at the
        first whose media type contains "image", answer the second link. */
    method GetImageUrlFromFeed() returns (r: Lookup)
      ensures r == ImageUrl(feed)
      ensures |feed| == 0 ==> r == IndexError
      ensures |feed| > 0 && (exists i :: 0 <= i < |feed[0]| && IsImageLink(feed[0][i])) ==>
        r == if |feed[0]| >= 2 then Found(feed[0][1].href) else IndexError
      ensures |feed| > 0 && (forall i :: 0 <= i < |feed[0]| ==> !IsImageLink(feed[0][i])) ==>
        r == NoImageLink
    {
      if |feed| == 0 {
        return IndexError;
      }
      var links := feed[0];
      var n := 0;
      while n < |links|
        invariant n <= |links|
        invariant forall i :: 0 <= i < n ==> !IsImageLink(links[i])
      {
        if Contains(links[n].mediaType, "image") {
          if |links| < 2 {
            return IndexError;
          }
          return Found(links[1].href);
        }
        n := n + 1;
      }
      return NoImageLink;
    }

    /** update_image: store the newly parsed feed, look up the image URL and,
        only when it differs from the current one, record it, download it and
        decode it, in that order; a failing step leaves the later fields as
        they were. */
    method UpdateImage(parsed: Feed, fetch: string -> Option<seq<Byte>>,
                       decode: seq<Byte> -> Option<Photo>) returns (outcome: Outcome)
      modifies this
      ensures feed == parsed
      ensures (State(), outcome) == Refresh(old(State()), ImageUrl(parsed), fetch, decode)
    {
      feed := parsed;
      var lookup := GetImageUrlFromFeed();
      if lookup.IndexError? {
        return LookupFailed;
      }
      var imageUrl := LookedUpUrl(lookup);
      if currentUrl != imageUrl {
        currentUrl := imageUrl;
        if imageUrl.None? {
          return DownloadFailed;
        }
        var raw := fetch(imageUrl.value);
        if raw.None? {
          return DownloadFailed;
        }
        imageRaw := raw.value;
        var parsedImage := decode(imageRaw);
        if parsedImage.None? {
          return DecodeFailed;
        }
        image := parsedImage.value;
        return Replaced;
      }
      return Kept;
    }

    /** update_leds, given the palette extracted from the current image:
        the request URL it sends. */
    method UpdateLeds(palette: seq<Rgb>) returns (requestUrl: string)
      requires forall i :: 0 <= i < |palette| ==> HsvDefined(palette[i])
      ensures requestUrl == RequestUrl(wemosAddress, HexPalette(palette))
    {
      var hexPalette := PaletteToHex(palette);
      requestUrl := RequestUrl(wemosAddress, hexPalette);
    }
  }
}
