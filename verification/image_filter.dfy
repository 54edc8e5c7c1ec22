/**
  The gallery's extension filter: one checkbox per recognised extension, and
  the filtered view of the revealed images. The source keeps the filter in
  an object keyed by extension name; here it is a total map over the closed
  set of seven extensions, so an extension outside the set is excluded.
 */
module ImageFilter {
  import opened Results
  import opened Js

  /** The seven extensions the gallery offers a checkbox for. */
  datatype Ext = Jpg | Png | Gif | Webp | Svg | Bmp | Tiff

  /** The key of each extension in the filter object. */
  function ExtName(e: Ext): string {
    match e
    case Jpg => "jpg"
    case Png => "png"
    case Gif => "gif"
    case Webp => "webp"
    case Svg => "svg"
    case Bmp => "bmp"
    case Tiff => "tiff"
  }

  /** The extension whose key is exactly `s`, or None when `s` is no key of the filter. */
  function ParseExt(s: string): (r: Option<Ext>)
    ensures r.Some? ==> ExtName(r.value) == s
    ensures r.None? ==> forall e: Ext :: ExtName(e) != s
  {
    if s == "jpg" then Some(Jpg)
    else if s == "png" then Some(Png)
    else if s == "gif" then Some(Gif)
    else if s == "webp" then Some(Webp)
    else if s == "svg" then Some(Svg)
    else if s == "bmp" then Some(Bmp)
    else if s == "tiff" then Some(Tiff)
    else None
  }

  /** Keys name extensions one-to-one: parsing a key gives back its extension. */
  lemma ParseExtName(e: Ext)
    ensures ParseExt(ExtName(e)) == Some(e)
  {
  }

  /** Which extensions are currently shown. */
  datatype ExtFilter = ExtFilter(jpg: bool, png: bool, gif: bool, webp: bool, svg: bool, bmp: bool, tiff: bool) {

    function Get(e: Ext): bool {
      match e
      case Jpg => jpg
      case Png => png
      case Gif => gif
      case Webp => webp
      case Svg => svg
      case Bmp => bmp
      case Tiff => tiff
    }

    /** A checkbox change: flips the one extension and leaves the other six as they were. */
    function Toggle(e: Ext): (r: ExtFilter)
      ensures r.Get(e) == !Get(e)
      ensures forall o: Ext :: o != e ==> r.Get(o) == Get(o)
    {
      match e
      case Jpg => this.(jpg := !jpg)
      case Png => this.(png := !png)
      case Gif => this.(gif := !gif)
      case Webp => this.(webp := !webp)
      case Svg => this.(svg := !svg)
      case Bmp => this.(bmp := !bmp)
      case Tiff => this.(tiff := !tiff)
    }
  }

  /** The filter a session starts with: every extension shown. */
  const AllEnabled: ExtFilter := ExtFilter(true, true, true, true, true, true, true)

  /** Two clicks on the same checkbox restore the filter. */
  lemma ToggleTwice(f: ExtFilter, e: Ext)
    ensures f.Toggle(e).Toggle(e) == f
  {
  }

  /** `imgUrl.split('.').pop().toLowerCase()`: the lower-cased text after the last dot. */
  function ExtensionText(url: string): string {
    AsciiLower(LastPiece(url, '.'))
  }

  /** The recognised extension of a URL, if its extension text is one of the seven keys. */
  function ExtensionOf(url: string): Option<Ext> {
    ParseExt(ExtensionText(url))
  }

  /** The predicate of `images.filter`: `filter[ext]` over the seven keys, false for any other text. */
  predicate Keep(url: string, f: ExtFilter) {
    match ExtensionOf(url)
    case Some(e) => f.Get(e)
    case None => false
  }

  /**
    A URL is kept exactly when the lower-cased text after its last dot is the
    key of an extension whose checkbox is on.
   */
  lemma KeepIff(url: string, f: ExtFilter)
    ensures Keep(url, f) <==> exists e: Ext :: ExtName(e) == ExtensionText(url) && f.Get(e)
  {
    if Keep(url, f) {
      var e := ExtensionOf(url).value;
      assert ExtName(e) == ExtensionText(url) && f.Get(e);
    }
  }

  /** The filter's predicate as a function value. */
  function Keeper(f: ExtFilter): string -> bool {
    url => Keep(url, f)
  }

  /** `images.filter(...)`: the images the filter keeps, in their original order. */
  function FilterImages(images: seq<string>, f: ExtFilter): (r: seq<string>)
    ensures |r| <= |images|
  {
    Select(images, Keeper(f))
  }

  /**
    The filtered view is an order-preserving subsequence of the images,
    witnessed by `KeptPositions`: ascending positions, each holding the
    corresponding filtered image, and exactly the positions whose URL passes
    the filter.
   */
  lemma FilterIsOrderedSubsequence(images: seq<string>, f: ExtFilter)
    ensures var r, idx := FilterImages(images, f), KeptPositions(images, Keeper(f));
      && |idx| == |r|
      && (forall k :: 0 <= k < |idx| ==> idx[k] < |images| && images[idx[k]] == r[k])
      && (forall k, l :: 0 <= k < l < |idx| ==> idx[k] < idx[l])
      && (forall i :: 0 <= i < |images| ==> (Keep(images[i], f) <==> i in idx))
  {
    var p := Keeper(f);
    KeptPositionsHoldSelected(images, p);
    KeptPositionsAscend(images, p);
    KeptPositionsExact(images, p);
    assert forall i :: 0 <= i < |images| ==> p(images[i]) == Keep(images[i], f);
  }

  /**
    Every image of the filtered view passes the filter and comes from the
    images, and every image that passes is in the view.
   */
  lemma FilterMembers(images: seq<string>, f: ExtFilter)
    ensures forall k :: 0 <= k < |FilterImages(images, f)| ==>
      Keep(FilterImages(images, f)[k], f) && FilterImages(images, f)[k] in images
    ensures forall i :: 0 <= i < |images| && Keep(images[i], f) ==> images[i] in FilterImages(images, f)
  {
    FilterIsOrderedSubsequence(images, f);
    var r, idx := FilterImages(images, f), KeptPositions(images, Keeper(f));
    forall i | 0 <= i < |images| && Keep(images[i], f)
      ensures images[i] in r
    {
      var k :| 0 <= k < |idx| && idx[k] == i;
      assert r[k] == images[i];
    }
    forall k | 0 <= k < |r|
      ensures Keep(r[k], f) && r[k] in images
    {
      assert images[idx[k]] == r[k];
    }
  }

  /** Filtering distributes over concatenation: appending images appends their filtered view. */
  lemma FilterAppend(a: seq<string>, b: seq<string>, f: ExtFilter)
    ensures FilterImages(a + b, f) == FilterImages(a, f) + FilterImages(b, f)
  {
    SelectAppend(a, b, Keeper(f));
  }

  /** The elements of `xs` satisfying `p`, in order. */
  function Select<T>(xs: seq<T>, p: T -> bool): (r: seq<T>)
    ensures |r| <= |xs|
  {
    if |xs| == 0 then []
    else
      var n := |xs| - 1;
      Select(xs[..n], p) + (if p(xs[n]) then [xs[n]] else [])
  }

  /** The positions of the elements `Select` keeps, ascending. */
  function KeptPositions<T>(xs: seq<T>, p: T -> bool): seq<nat> {
    if |xs| == 0 then []
    else
      var n := |xs| - 1;
      KeptPositions(xs[..n], p) + (if p(xs[n]) then [n] else [])
  }

  lemma {:induction false} KeptPositionsHoldSelected<T>(xs: seq<T>, p: T -> bool)
    ensures var r, idx := Select(xs, p), KeptPositions(xs, p);
      && |idx| == |r|
      && (forall k :: 0 <= k < |idx| ==> idx[k] < |xs| && xs[idx[k]] == r[k])
    decreases |xs|
  {
    if |xs| > 0 {
      var n := |xs| - 1;
      var init := xs[..n];
      KeptPositionsHoldSelected(init, p);
      var rest, ri := Select(init, p), KeptPositions(init, p);
      var r, idx := Select(xs, p), KeptPositions(xs, p);
      var keep := p(xs[n]);
      assert r == rest + (if keep then [xs[n]] else []);
      assert idx == ri + (if keep then [n] else []);
      forall k | 0 <= k < |idx|
        ensures idx[k] < |xs| && xs[idx[k]] == r[k]
      {
        if k < |ri| {
          assert idx[k] == ri[k] && r[k] == rest[k];
          assert xs[ri[k]] == init[ri[k]];
        }
      }
    }
  }

  lemma {:induction false} KeptPositionsAscend<T>(xs: seq<T>, p: T -> bool)
    ensures forall k :: 0 <= k < |KeptPositions(xs, p)| ==> KeptPositions(xs, p)[k] < |xs|
    ensures forall k, l :: 0 <= k < l < |KeptPositions(xs, p)| ==>
      KeptPositions(xs, p)[k] < KeptPositions(xs, p)[l]
    decreases |xs|
  {
    if |xs| > 0 {
      var n := |xs| - 1;
      KeptPositionsAscend(xs[..n], p);
      var ri := KeptPositions(xs[..n], p);
      var idx := KeptPositions(xs, p);
      assert idx == ri + (if p(xs[n]) then [n] else []);
      assert forall k :: 0 <= k < |ri| ==> ri[k] < n;
      forall k | 0 <= k < |idx|
        ensures idx[k] < |xs|
      {
        if k < |ri| { assert idx[k] == ri[k]; }
      }
      forall k, l | 0 <= k < l < |idx|
        ensures idx[k] < idx[l]
      {
        if l < |ri| { assert idx[k] == ri[k] && idx[l] == ri[l]; }
        else { assert idx[k] == ri[k] && idx[l] == n; }
      }
    }
  }

  lemma {:induction false} KeptPositionsExact<T>(xs: seq<T>, p: T -> bool)
    ensures forall i :: 0 <= i < |xs| ==> (p(xs[i]) <==> i in KeptPositions(xs, p))
    decreases |xs|
  {
    if |xs| > 0 {
      var n := |xs| - 1;
      var init := xs[..n];
      KeptPositionsExact(init, p);
      KeptPositionsAscend(init, p);
      var ri := KeptPositions(init, p);
      var idx := KeptPositions(xs, p);
      assert idx == ri + (if p(xs[n]) then [n] else []);
      forall i | 0 <= i < |xs|
        ensures p(xs[i]) <==> i in idx
      {
        if i < n {
          assert xs[i] == init[i];
          assert i in idx <==> i in ri;
        } else {
          assert forall k :: 0 <= k < |ri| ==> ri[k] != n;
        }
      }
    }
  }

  /** `Select` distributes over concatenation. */
  lemma {:induction false} SelectAppend<T>(a: seq<T>, b: seq<T>, p: T -> bool)
    ensures Select(a + b, p) == Select(a, p) + Select(b, p)
    decreases |b|
  {
    if |b| == 0 {
      assert a + b == a;
    } else {
      var b', x := b[..|b| - 1], b[|b| - 1];
      SelectAppend(a, b', p);
      assert (a + b)[..|a + b| - 1] == a + b';
      assert (a + b)[|a + b| - 1] == x;
    }
  }
}
