/**
  The gallery session of the `App` component: the extracted URLs, the
  revealed window of them (`images`, grown twenty at a time as the last
  image scrolls into view), the extension filter, and the fullscreen viewer
  with its keyboard control. Each event handler is a function from the
  session before it to the session after it.
 */
module Gallery {
  import opened Results
  import opened Js
  import opened ImageFilter
  import Fullscreen
  import opened Api
  import ExtractImages

  /** `imagesPerPage`: how many more images each reveal shows. */
  const ImagesPerPage: nat := 20

  datatype Session = Session(
    /** `allExtractedImages.current`: the last list the extraction function returned. */
    allExtracted: seq<string>,
    /** The revealed images, rendered in the grid before filtering. */
    images: seq<string>,
    /** `currentPage.current`: how many reveals beyond the first window have happened. */
    currentPage: nat,
    visibleImagesCount: nat,
    loading: bool,
    error: Option<string>,
    filter: ExtFilter,
    fullscreenImage: Option<string>)

  /** The session when the component mounts. */
  const Initial: Session := Session([], [], 0, 0, false, None, AllEnabled, None)

  /** The number of extracted images revealed after `page` reveals beyond the first window. */
  function WindowEnd(page: nat, total: nat): nat {
    Min(ImagesPerPage * (page + 1), total)
  }

  /**
    The reveal window: `images` is the first `20·(currentPage+1)` extracted
    URLs (all of them when there are fewer), and the shown count is its length.
   */
  predicate RevealInvariant(s: Session) {
    && s.images == s.allExtracted[..WindowEnd(s.currentPage, |s.allExtracted|)]
    && s.visibleImagesCount == |s.images|
  }

  lemma InitialRevealInvariant()
    ensures RevealInvariant(Initial) && !Initial.loading
    ensures forall e: Ext :: Initial.filter.Get(e)
  {
  }

  /** The synchronous start of `fetchImages`: ignored while loading, otherwise marks loading and clears the error. */
  function BeginFetch(s: Session): (r: Session)
    ensures s.loading ==> r == s
    ensures !s.loading ==> r == s.(loading := true, error := None)
  {
    if s.loading then s else s.(loading := true, error := None)
  }

  /**
    The end of `fetchImages` once the reply is in: on success the list
    replaces `allExtracted` and the window restarts at its first twenty; on
    failure only the error is recorded. Either way loading ends.
   */
  function SettleFetch(s: Session, reply: ApiReply): Session {
    match ReplyData(reply)
    case Ok(data) =>
      s.(allExtracted := data, currentPage := 0, images := Slice(data, 0, ImagesPerPage),
         visibleImagesCount := Min(ImagesPerPage, |data|), loading := false)
    case Err(message) => s.(error := Some(message), loading := false)
  }

  /** `fetchImages()` whose request yields `reply`. */
  function FetchImages(s: Session, reply: ApiReply): (r: Session)
    ensures s.loading ==> r == s
    ensures !s.loading ==> !r.loading && r.filter == s.filter && r.fullscreenImage == s.fullscreenImage
    ensures !s.loading && ReplyData(reply).Ok? ==>
      var data := ReplyData(reply).value;
      && r.allExtracted == data
      && r.currentPage == 0
      && r.images == data[..Min(ImagesPerPage, |data|)]
      && r.visibleImagesCount == Min(ImagesPerPage, |data|)
      && r.error == None
      && RevealInvariant(r)
    ensures !s.loading && ReplyData(reply).Err? ==>
      r == s.(error := Some(ReplyData(reply).message))
    ensures RevealInvariant(s) ==> RevealInvariant(r)
  {
    if s.loading then s else SettleFetch(BeginFetch(s), reply)
  }

  /**
    At most one request is in flight: once a fetch has begun, a second
    `fetchImages` changes nothing whatever its reply would have been, and
    beginning again is idle.
   */
  lemma AtMostOneInFlight(s: Session, reply: ApiReply)
    requires !s.loading
    ensures BeginFetch(s).loading
    ensures FetchImages(BeginFetch(s), reply) == BeginFetch(s)
    ensures BeginFetch(BeginFetch(s)) == BeginFetch(s)
  {
  }

  /**
    `loadMoreImages`: appends the next twenty extracted URLs (fewer at the
    end of the list) and advances the page; with nothing left it changes
    nothing. No other part of the session changes.
   */
  function LoadMoreImages(s: Session): (r: Session)
    ensures r.(images := s.images, currentPage := s.currentPage, visibleImagesCount := s.visibleImagesCount) == s
    ensures ImagesPerPage * (s.currentPage + 1) >= |s.allExtracted| ==> r == s
    ensures ImagesPerPage * (s.currentPage + 1) < |s.allExtracted| ==>
      && r.currentPage == s.currentPage + 1
      && s.images < r.images
      && |r.images| <= |s.images| + ImagesPerPage
    ensures RevealInvariant(s) ==> RevealInvariant(r)
  {
    var nextPage := s.currentPage + 1;
    var startIndex := nextPage * ImagesPerPage;
    var newImages := Slice(s.allExtracted, startIndex, startIndex + ImagesPerPage);
    if |newImages| > 0 then
      var r := s.(images := s.images + newImages, currentPage := nextPage,
                  visibleImagesCount := s.visibleImagesCount + |newImages|);
      assert RevealInvariant(s) ==> r.images == s.allExtracted[..WindowEnd(nextPage, |s.allExtracted|)];
      r
    else s
  }

  /** At the end of the list `loadMoreImages` is idle, so repeating it there changes nothing. */
  lemma LoadMoreIdempotentAtEnd(s: Session)
    requires RevealInvariant(s)
    requires |s.images| == |s.allExtracted|
    ensures LoadMoreImages(s) == s
    ensures LoadMoreImages(LoadMoreImages(s)) == s
  {
  }

  /** `k` successive reveals. */
  function LoadMoreTimes(s: Session, k: nat): Session {
    if k == 0 then s else LoadMoreImages(LoadMoreTimes(s, k - 1))
  }

  /**
    From a freshly fetched list, `k` reveals show the first `20·(k+1)`
    images, or all of them once that passes the end.
   */
  lemma {:induction false} RevealProgress(s: Session, k: nat)
    requires RevealInvariant(s) && s.currentPage == 0
    ensures RevealInvariant(LoadMoreTimes(s, k))
    ensures LoadMoreTimes(s, k).allExtracted == s.allExtracted
    ensures |LoadMoreTimes(s, k).images| == Min(ImagesPerPage * (k + 1), |s.allExtracted|)
  {
    if k > 0 {
      RevealProgress(s, k - 1);
      RevealStep(LoadMoreTimes(s, k - 1), k);
    }
  }

  /** One reveal past the first `20·k` images shows the first `20·(k+1)`, or all of them. */
  lemma RevealStep(p: Session, k: nat)
    requires RevealInvariant(p)
    requires |p.images| == Min(ImagesPerPage * k, |p.allExtracted|)
    ensures RevealInvariant(LoadMoreImages(p))
    ensures LoadMoreImages(p).allExtracted == p.allExtracted
    ensures |LoadMoreImages(p).images| == Min(ImagesPerPage * (k + 1), |p.allExtracted|)
  {
    var n := |p.allExtracted|;
    var c := p.currentPage;
    assert ImagesPerPage * (k + 1) == ImagesPerPage * k + ImagesPerPage;
    assert ImagesPerPage * (c + 1) == ImagesPerPage * c + ImagesPerPage;
    if ImagesPerPage * k < n {
      assert ImagesPerPage * (c + 1) == ImagesPerPage * k;
      assert c + 1 == k;
    } else {
      assert ImagesPerPage * (c + 1) >= n;
    }
  }

  /** Forty-five extracted images are revealed 20, then 40, then 45 at a time; never 60. */
  lemma RevealFortyFive(s: Session)
    requires RevealInvariant(s) && s.currentPage == 0 && |s.allExtracted| == 45
    ensures |s.images| == 20
    ensures |LoadMoreTimes(s, 1).images| == 40
    ensures |LoadMoreTimes(s, 2).images| == 45
    ensures |LoadMoreTimes(s, 3).images| == 45
  {
    RevealProgress(s, 1);
    RevealProgress(s, 2);
    RevealProgress(s, 3);
  }

  /**
    The intersection callback installed on the last rendered image: it
    reveals more only while nothing is loading, a sentinel is rendered (the
    last image of the filtered view, so the view is not empty), the sentinel
    is in view, and fewer images are revealed than were extracted.
   */
  function OnIntersect(s: Session, isIntersecting: bool): (r: Session)
    ensures r == s || r == LoadMoreImages(s)
    ensures r != s ==>
      !s.loading && |FilteredImages(s)| > 0 && isIntersecting && |s.images| < |s.allExtracted|
    ensures
      && RevealInvariant(s) && !s.loading && |FilteredImages(s)| > 0 && isIntersecting
      && |s.images| < |s.allExtracted|
      ==> s.images < r.images && RevealInvariant(r)
  {
    if !s.loading && |FilteredImages(s)| > 0 && isIntersecting && |s.images| < |s.allExtracted|
    then LoadMoreImages(s)
    else s
  }

  /**
    Under the reveal invariant the callback's test "fewer revealed than
    extracted" is exactly "the next page is not empty".
   */
  lemma GuardMeansMoreToReveal(s: Session)
    requires RevealInvariant(s)
    ensures |s.images| < |s.allExtracted| <==> ImagesPerPage * (s.currentPage + 1) < |s.allExtracted|
  {
  }

  /** `filteredImages`: the revealed images whose extension is checked. */
  function FilteredImages(s: Session): seq<string> {
    FilterImages(s.images, s.filter)
  }

  /**
    Revealing more never disturbs what is already on screen: the filtered
    view only grows at its end, by the filtered new images.
   */
  lemma LoadMoreExtendsFilteredView(s: Session)
    ensures FilteredImages(s) <= FilteredImages(LoadMoreImages(s))
    ensures var r := LoadMoreImages(s);
      FilteredImages(r) == FilteredImages(s) + FilterImages(r.images[|s.images|..], s.filter)
  {
    var r := LoadMoreImages(s);
    assert r.images == s.images + r.images[|s.images|..];
    FilterAppend(s.images, r.images[|s.images|..], s.filter);
  }

  /** The checkbox handler: flips one extension; nothing is fetched or revealed. */
  function ToggleFilter(s: Session, e: Ext): (r: Session)
    ensures r.(filter := s.filter) == s
    ensures r.filter.Get(e) == !s.filter.Get(e)
    ensures forall o: Ext :: o != e ==> r.filter.Get(o) == s.filter.Get(o)
  {
    s.(filter := s.filter.Toggle(e))
  }

  /** JavaScript truthiness of `fullscreenImage`: set, and not the empty string. */
  predicate IsShown(image: Option<string>) {
    image.Some? && image.value != ""
  }

  /** `openFullscreen(image)`: the viewer shows the clicked image. */
  function OpenFullscreen(s: Session, image: string): (r: Session)
    ensures r.(fullscreenImage := s.fullscreenImage) == s
    ensures r.fullscreenImage == Some(image)
    ensures IsShown(r.fullscreenImage) <==> image != ""
  {
    s.(fullscreenImage := Some(image))
  }

  /** `closeFullscreen()`: the viewer closes. */
  function CloseFullscreen(s: Session): (r: Session)
    ensures r.(fullscreenImage := s.fullscreenImage) == s
    ensures !IsShown(r.fullscreenImage)
  {
    s.(fullscreenImage := None)
  }

  /**
    `navigateFullscreen(direction)`: moves the viewer one image along the
    current filtered view, cyclically; with an empty view it closes.
   */
  function NavigateFullscreen(s: Session, dir: Fullscreen.Direction): (r: Session)
    ensures r.(fullscreenImage := s.fullscreenImage) == s
    ensures |FilteredImages(s)| == 0 ==> !IsShown(r.fullscreenImage)
    ensures |FilteredImages(s)| > 0 ==> r.fullscreenImage.Some? && r.fullscreenImage.value in FilteredImages(s)
  {
    s.(fullscreenImage := Fullscreen.Step(FilteredImages(s), s.fullscreenImage, dir))
  }

  /**
    The `keydown` listener: only while an image is shown, Escape closes the
    viewer, ArrowLeft and ArrowRight step through the filtered view; every
    other key, and every key while nothing is shown, changes nothing.
   */
  function HandleKeyDown(s: Session, key: string): (r: Session)
    ensures !IsShown(s.fullscreenImage) ==> r == s
    ensures key != "Escape" && key != "ArrowLeft" && key != "ArrowRight" ==> r == s
    ensures IsShown(s.fullscreenImage) && key == "Escape" ==> r == CloseFullscreen(s)
    ensures IsShown(s.fullscreenImage) && key == "ArrowLeft" ==> r == NavigateFullscreen(s, Fullscreen.Left)
    ensures IsShown(s.fullscreenImage) && key == "ArrowRight" ==> r == NavigateFullscreen(s, Fullscreen.Right)
  {
    if !IsShown(s.fullscreenImage) then s
    else if key == "Escape" then CloseFullscreen(s)
    else if key == "ArrowLeft" then NavigateFullscreen(s, Fullscreen.Left)
    else if key == "ArrowRight" then NavigateFullscreen(s, Fullscreen.Right)
    else s
  }

  /**
    A fetch served by the extraction function: the gallery asks for `url`
    and receives the function's response for that parameter.
   */
  function FetchFromFunction(s: Session, url: string, fetchHtml: string -> Result<string>,
                             parseImgs: string -> seq<ExtractImages.ImgAttrs>,
                             resolve: ExtractImages.Resolver): Session {
    FetchImages(s, Transport(ExtractImages.Handler(Some(url), fetchHtml, parseImgs, resolve)))
  }

  /**
    Submitting an empty URL surfaces the function's 400 as the error
    "HTTP error! status: 400" and keeps every image already extracted.
   */
  lemma EmptyUrlFailsWith400(s: Session, fetchHtml: string -> Result<string>,
                             parseImgs: string -> seq<ExtractImages.ImgAttrs>,
                             resolve: ExtractImages.Resolver)
    requires !s.loading
    ensures FetchFromFunction(s, "", fetchHtml, parseImgs, resolve) == s.(error := Some("HTTP error! status: 400"))
  {
    var reply := Transport(ExtractImages.Handler(Some(""), fetchHtml, parseImgs, resolve));
    assert reply == HttpReply(400, NotUrlArray("Missing URL parameter"));
    assert NatToString(400) == "400" by {
      assert NatToString(4) == "4";
      assert NatToString(40) == "40";
    }
    assert ReplyData(reply) == Err("HTTP error! status: 400");
  }

  /**
    A page the function cannot fetch surfaces as "HTTP error! status: 500"
    and keeps every image already extracted.
   */
  lemma UnfetchablePageFailsWith500(s: Session, url: string, fetchHtml: string -> Result<string>,
                                    parseImgs: string -> seq<ExtractImages.ImgAttrs>,
                                    resolve: ExtractImages.Resolver)
    requires !s.loading && url != "" && fetchHtml(url).Err?
    ensures FetchFromFunction(s, url, fetchHtml, parseImgs, resolve) == s.(error := Some("HTTP error! status: 500"))
  {
    var reply := Transport(ExtractImages.Handler(Some(url), fetchHtml, parseImgs, resolve));
    assert reply.status == 500 && reply.payload.NotUrlArray?;
    assert NatToString(500) == "500" by {
      assert NatToString(5) == "5";
      assert NatToString(50) == "50";
    }
    assert ReplyData(reply) == Err("HTTP error! status: 500");
  }

  /**
    A page the function can fetch replaces the extracted list with the
    function's answer: the first 200 URLs of the page's images, in document
    order, of which the first twenty are revealed.
   */
  lemma FetchedPageWithinCap(s: Session, url: string, fetchHtml: string -> Result<string>,
                             parseImgs: string -> seq<ExtractImages.ImgAttrs>,
                             resolve: ExtractImages.Resolver)
    requires !s.loading && url != "" && fetchHtml(url).Ok?
    ensures var r := FetchFromFunction(s, url, fetchHtml, parseImgs, resolve);
      var all := ExtractImages.AllUrls(parseImgs(fetchHtml(url).value), url, resolve);
      && r.allExtracted == ExtractImages.Truncate(all)
      && |r.allExtracted| <= ExtractImages.MaxImages
      && r.error == None
      && RevealInvariant(r)
  {
  }
}
