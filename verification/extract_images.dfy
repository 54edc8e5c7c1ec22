/**
  The serverless function that fetches a page and lists the image URLs its
  `<img>` elements reference. The page is taken already parsed: a sequence
  of `<img>` attribute records in document order. Fetching the page and
  parsing its HTML are parameters of the handler, and so is URL resolution
  (`new URL(relative, base)`), which may fail.
 */
module ExtractImages {
  import opened Results
  import opened Js

  /** The handler stops scanning, and truncates its answer, at this many URLs. */
  const MaxImages: nat := 200

  /**
    The attributes of one `<img>` element that the handler reads. The empty
    string stands for an absent attribute: the handler tests each one for
    truthiness, so an absent and an empty attribute behave alike.
   */
  datatype ImgAttrs = ImgAttrs(src: string, dataSrc: string, srcset: string)

  /**
    Absolute-URL resolution of a reference against a base: the `href` of
    `new URL(relative, base)`, or None where that constructor throws.
   */
  type Resolver = (string, string) -> Option<string>

  /** `resolveUrl`: the resolved href, or the reference itself when resolution fails; it never throws. */
  function ResolveUrl(relative: string, base: string, resolve: Resolver): (r: string)
    ensures resolve(relative, base) == Some(r) || (resolve(relative, base) == None && r == relative)
  {
    match resolve(relative, base)
    case Some(href) => href
    case None => relative
  }

  /** The URL one `srcset` candidate names: the first `' '`-separated token of the trimmed candidate. */
  function SrcsetCandidate(piece: string): (r: string)
    ensures ' ' !in r
    ensures r <= Trim(piece)
    ensures r == Trim(piece) || Trim(piece)[|r|] == ' '
  {
    FirstToken(Trim(piece))
  }

  /** The resolved URL of one comma-separated piece of a `srcset` value. */
  function CandidateUrl(piece: string, base: string, resolve: Resolver): string {
    ResolveUrl(SrcsetCandidate(piece), base, resolve)
  }

  /** One resolved URL per comma-separated piece of a `srcset` value, in order. */
  function SrcsetUrls(pieces: seq<string>, base: string, resolve: Resolver): (r: seq<string>)
    ensures |r| == |pieces|
    ensures forall i :: 0 <= i < |pieces| ==> r[i] == CandidateUrl(pieces[i], base, resolve)
  {
    if |pieces| == 0 then []
    else [CandidateUrl(pieces[0], base, resolve)] + SrcsetUrls(pieces[1..], base, resolve)
  }

  function Indicator(b: bool): nat {
    if b then 1 else 0
  }

  /**
    What one `<img>` element contributes: the resolved `src` if present, then
    the resolved `data-src` if present, then one URL per comma-separated piece
    of `srcset` if present. Nothing is deduplicated.
   */
  function ElementUrls(img: ImgAttrs, base: string, resolve: Resolver): seq<string> {
    (if img.src != "" then [ResolveUrl(img.src, base, resolve)] else [])
    + (if img.dataSrc != "" then [ResolveUrl(img.dataSrc, base, resolve)] else [])
    + (if img.srcset != "" then SrcsetUrls(Split(img.srcset, ','), base, resolve) else [])
  }

  /**
    How many URLs one element contributes: one for a present `src`, one for a
    present `data-src`, and one per comma-separated piece of a present
    `srcset`, which has one piece more than it has commas (so a trailing
    comma still yields a URL, for the empty piece).
   */
  lemma ElementUrlCount(img: ImgAttrs, base: string, resolve: Resolver)
    ensures |ElementUrls(img, base, resolve)| == Indicator(img.src != "") + Indicator(img.dataSrc != "")
      + (if img.srcset != "" then Count(img.srcset, ',') + 1 else 0)
  {
  }

  /**
    The order within one element: the resolved `src` first, the resolved
    `data-src` next, then the `srcset` candidates in the order written.
   */
  lemma ElementUrlOrder(img: ImgAttrs, base: string, resolve: Resolver)
    ensures var r := ElementUrls(img, base, resolve);
      && (img.src != "" ==> r[0] == ResolveUrl(img.src, base, resolve))
      && (img.dataSrc != "" ==> r[Indicator(img.src != "")] == ResolveUrl(img.dataSrc, base, resolve))
      && (img.srcset != "" ==>
            r[Indicator(img.src != "") + Indicator(img.dataSrc != "")..]
            == SrcsetUrls(Split(img.srcset, ','), base, resolve))
  {
    var a := if img.src != "" then [ResolveUrl(img.src, base, resolve)] else [];
    var b := if img.dataSrc != "" then [ResolveUrl(img.dataSrc, base, resolve)] else [];
    if img.srcset != "" {
      var c := SrcsetUrls(Split(img.srcset, ','), base, resolve);
      assert ElementUrls(img, base, resolve) == a + b + c;
      assert (a + b + c)[|a| + |b|..] == c;
    }
  }

  /** What each element contributes, element by element in document order. */
  function Contributions(imgs: seq<ImgAttrs>, base: string, resolve: Resolver): seq<seq<string>> {
    seq(|imgs|, i requires 0 <= i < |imgs| => ElementUrls(imgs[i], base, resolve))
  }

  /** The contributions laid end to end: every URL, in document order, without any cap. */
  function Flatten(parts: seq<seq<string>>): seq<string> {
    if |parts| == 0 then [] else parts[0] + Flatten(parts[1..])
  }

  /** Flattening consecutive runs of contributions concatenates their flattenings. */
  lemma {:induction false} FlattenAppend(a: seq<seq<string>>, b: seq<seq<string>>)
    ensures Flatten(a + b) == Flatten(a) + Flatten(b)
    decreases |a|
  {
    if |a| > 0 {
      FlattenAppend(a[1..], b);
      assert (a + b)[1..] == a[1..] + b;
      assert (a + b)[0] == a[0];
    } else {
      assert a + b == b;
    }
  }

  /**
    The `$('img').each` loop over the elements' contributions, continuing
    from the list `acc` built so far: before each element it stops once
    `acc` holds `MaxImages` URLs or more, and otherwise appends everything
    the element contributes.
   */
  function Collect(parts: seq<seq<string>>, acc: seq<string>): seq<string>
    decreases |parts|
  {
    if |parts| == 0 || |acc| >= MaxImages then acc
    else Collect(parts[1..], acc + parts[0])
  }

  /** `imageUrls.slice(0, 200)`. */
  function Truncate(urls: seq<string>): (r: seq<string>)
    ensures |r| == Min(MaxImages, |urls|) && r <= urls
  {
    Slice(urls, 0, MaxImages)
  }

  /**
    Capping the scan before each element and truncating afterwards keep the
    first `MaxImages` of everything: elements skipped by the cap would only
    have contributed URLs past that point.
   */
  lemma {:induction false} CollectKeepsFirst(parts: seq<seq<string>>, acc: seq<string>)
    ensures Truncate(Collect(parts, acc)) == Truncate(acc + Flatten(parts))
    decreases |parts|
  {
    var all := Flatten(parts);
    if |parts| == 0 {
      assert acc + all == acc;
    } else if |acc| >= MaxImages {
      assert (acc + all)[..MaxImages] == acc[..MaxImages];
    } else {
      CollectKeepsFirst(parts[1..], acc + parts[0]);
      assert acc + all == acc + parts[0] + Flatten(parts[1..]);
    }
  }

  /**
    The shape of the list the loop builds: the contributions of the first
    `k` elements, where every shorter prefix stayed under the cap (so each of
    those elements was scanned) and, unless all elements were scanned, the
    `k` scanned ones reached the cap. Only the last scanned element can push
    the list past `MaxImages`.
   */
  lemma {:induction false} CollectShape(parts: seq<seq<string>>, acc: seq<string>)
    ensures exists k :: (0 <= k <= |parts|
      && Collect(parts, acc) == acc + Flatten(parts[..k])
      && (k < |parts| ==> |Collect(parts, acc)| >= MaxImages)
      && (forall j :: 0 <= j < k ==> |acc + Flatten(parts[..j])| < MaxImages))
    decreases |parts|
  {
    var r := Collect(parts, acc);
    if |parts| == 0 || |acc| >= MaxImages {
      assert Flatten(parts[..0]) == [];
      assert r == acc + Flatten(parts[..0]);
    } else {
      var e := parts[0];
      var tail := parts[1..];
      CollectShape(tail, acc + e);
      var k' :| 0 <= k' <= |tail|
        && r == acc + e + Flatten(tail[..k'])
        && (k' < |tail| ==> |r| >= MaxImages)
        && (forall j :: 0 <= j < k' ==> |acc + e + Flatten(tail[..j])| < MaxImages);
      var k := k' + 1;
      FlattenPrefixStep(parts, k');
      assert r == acc + Flatten(parts[..k]);
      forall j | 0 <= j < k
        ensures |acc + Flatten(parts[..j])| < MaxImages
      {
        if j == 0 {
          assert Flatten(parts[..0]) == [];
        } else {
          FlattenPrefixStep(parts, j - 1);
          assert |acc + Flatten(parts[..j])| == |acc + e + Flatten(tail[..j - 1])|;
        }
      }
    }
  }

  /** The first `j + 1` contributions flatten to the first one followed by the next `j`. */
  lemma FlattenPrefixStep(parts: seq<seq<string>>, j: nat)
    requires j < |parts|
    ensures Flatten(parts[..j + 1]) == parts[0] + Flatten(parts[1..][..j])
  {
    assert parts[..j + 1][0] == parts[0];
    assert parts[..j + 1][1..] == parts[1..][..j];
  }

  /**
    Once the list holds `MaxImages` URLs, elements appended after the
    scanned ones change nothing: no later `<img>` contributes.
   */
  lemma {:induction false} CollectIgnoresLaterImages(parts: seq<seq<string>>, later: seq<seq<string>>, acc: seq<string>)
    requires |Collect(parts, acc)| >= MaxImages
    ensures Collect(parts + later, acc) == Collect(parts, acc)
    decreases |parts|
  {
    if |parts| == 0 {
      assert parts + later == later;
    } else if |acc| < MaxImages {
      assert (parts + later)[1..] == parts[1..] + later;
      assert (parts + later)[0] == parts[0];
      CollectIgnoresLaterImages(parts[1..], later, acc + parts[0]);
    }
  }

  /** Every URL the elements reference, in document order, without any cap. */
  function AllUrls(imgs: seq<ImgAttrs>, base: string, resolve: Resolver): seq<string> {
    Flatten(Contributions(imgs, base, resolve))
  }

  /**
    The URL list the handler answers with: the scan, then the final slice.
    It is exactly the first `MaxImages` URLs of all elements in document
    order, so it never holds more than `MaxImages`.
   */
  function ImageUrls(imgs: seq<ImgAttrs>, base: string, resolve: Resolver): (urls: seq<string>)
    ensures |urls| <= MaxImages
    ensures urls == Truncate(AllUrls(imgs, base, resolve))
    ensures |AllUrls(imgs, base, resolve)| >= MaxImages ==> |urls| == MaxImages
  {
    var parts := Contributions(imgs, base, resolve);
    CollectKeepsFirst(parts, []);
    assert [] + Flatten(parts) == Flatten(parts);
    Truncate(Collect(parts, []))
  }

  /** The JSON body of a response: a list of URLs, or an error object with optional `details`. */
  datatype Body = UrlList(urls: seq<string>) | ErrorBody(error: string, details: Option<string>)

  datatype Response = Response(statusCode: nat, headers: seq<(string, string)>, body: Body)

  /** The headers attached to the successful response, and only to it. */
  const CorsHeaders: seq<(string, string)> := [
    ("Access-Control-Allow-Origin", "*"),
    ("Access-Control-Allow-Headers", "Content-Type"),
    ("Access-Control-Allow-Methods", "GET, POST, OPTION")
  ]

  const MissingUrlResponse := Response(400, [], ErrorBody("Missing URL parameter", None))

  /**
    `handler` for a request whose `url` query parameter is `urlParam`.
    `fetchHtml` stands for fetching the page and reading its text (failing
    with the thrown error's message; the upstream status is not inspected),
    `parseImgs` for loading the HTML and selecting its `<img>` elements.
   */
  function Handler(urlParam: Option<string>, fetchHtml: string -> Result<string>,
                   parseImgs: string -> seq<ImgAttrs>, resolve: Resolver): (resp: Response)
    // a missing or empty parameter is answered before anything is fetched
    ensures urlParam == None || urlParam == Some("") ==> resp == MissingUrlResponse
    ensures resp.statusCode == 400 <==> urlParam == None || urlParam == Some("")
    ensures resp.statusCode == 200 <==> urlParam.Some? && urlParam.value != "" && fetchHtml(urlParam.value).Ok?
    ensures resp.statusCode == 200 ==>
      && resp.headers == CorsHeaders
      && resp.body == UrlList(ImageUrls(parseImgs(fetchHtml(urlParam.value).value), urlParam.value, resolve))
      && |resp.body.urls| <= MaxImages
    ensures resp.statusCode != 200 ==> resp.headers == [] && resp.body.ErrorBody?
    ensures resp.statusCode == 500 <==> urlParam.Some? && urlParam.value != "" && fetchHtml(urlParam.value).Err?
    ensures resp.statusCode == 500 ==>
      resp.body == ErrorBody("Failed to extract images", Some(fetchHtml(urlParam.value).message))
  {
    match urlParam
    case None => MissingUrlResponse
    case Some(url) =>
      if url == "" then MissingUrlResponse
      else
        match fetchHtml(url)
        case Err(message) => Response(500, [], ErrorBody("Failed to extract images", Some(message)))
        case Ok(html) => Response(200, CorsHeaders, UrlList(ImageUrls(parseImgs(html), url, resolve)))
  }
}
