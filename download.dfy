/** The planning logic of `download_product_images`: which image URLs are
    requested and under which file names the status-200 responses are saved,
    for a listing whose pages have already been fetched and parsed. */
module Download {
  import opened Wrappers
  import opened Text
  import opened Sanitize
  import opened Urls
  import opened Seqs

  /** The status code whose response body is written to disk. */
  const HTTP_OK: int := 200

  /** What `requests.get` on an image URL gives: a response with a status
      code, or an exception. */
  datatype Fetch = Status(code: int) | Raised

  /** An `<img>` element found on a detail page: its attributes, and what
      fetching the URL chosen from them gives. */
  datatype ImageTag = ImageTag(attrs: map<string, string>, fetch: Fetch)

  /** A detail page as parsed: the `<img>` elements of class
      `gallery-placeholder__image` and those of class `fotorama__img`. */
  datatype DetailPage = DetailPage(gallery: seq<ImageTag>, fotorama: seq<ImageTag>)

  /** A `product-item-link` anchor of the listing: its text, and its detail
      page, which is `None` when fetching or parsing the page raised. */
  datatype ProductLink = ProductLink(text: string, detail: Option<DetailPage>)

  /** One image request: the product's 1-based listing position and cleaned
      title, the image's 1-based position on its page, the resolved URL and
      the outcome of fetching it. */
  datatype Request = Request(index: nat, title: string, imgIndex: nat, url: string, fetch: Fetch)

  /** The gallery images when there are any, otherwise the fotorama images. */
  function SelectImages(page: DetailPage): (images: seq<ImageTag>)
    ensures images == page.gallery || images == page.fotorama
    ensures images == [] <==> page.gallery == [] && page.fotorama == []
    ensures page.gallery != [] ==> images == page.gallery
  {
    if |page.gallery| > 0 then page.gallery else page.fotorama
  }

  /** `clean_filename(product.get_text().strip())`. */
  function ProductTitle(p: ProductLink): string {
    CleanName(Strip(p.text))
  }

  /** `f"{index}_{title}_{img_index}{ext}"`. */
  function FileName(index: nat, title: string, imgIndex: nat, ext: string): string {
    NatToString(index) + "_" + title + "_" + NatToString(imgIndex) + ext
  }

  /** The name a request's response is saved under. */
  function SavedName(r: Request): string {
    FileName(r.index, r.title, r.imgIndex, Extension(r.url))
  }

  /** The request the `imgIndex`-th image of a product gives rise to: none
      when the element has no usable URL attribute. */
  function ImageRequest(index: nat, title: string, imgIndex: nat, img: ImageTag): seq<Request> {
    match PickUrl(img.attrs)
    case None => []
    case Some(url) => [Request(index, title, imgIndex, Resolve(url), img.fetch)]
  }

  /** The requests for a product's images, in page order, numbered from 1
      whether or not an image yields a request. */
  function ImageRequests(index: nat, title: string, images: seq<ImageTag>): seq<Request> {
    if images == [] then []
    else
      var n := |images|;
      ImageRequests(index, title, images[..n - 1]) + ImageRequest(index, title, n, images[n - 1])
  }

  /** The requests for the product at listing position `index`: none when its
      detail page could not be had. */
  function ProductRequests(index: nat, p: ProductLink): seq<Request> {
    match p.detail
    case None => []
    case Some(page) => ImageRequests(index, ProductTitle(p), SelectImages(page))
  }

  /** `r` comes before `s`: an earlier product, or an earlier image of the same product. */
  predicate Before(r: Request, s: Request) {
    r.index < s.index || (r.index == s.index && r.imgIndex < s.imgIndex)
  }

  /** All image requests of a run over `products`, in the order they are made. */
  function Requests(products: seq<ProductLink>): seq<Request> {
    if products == [] then []
    else
      var n := |products|;
      Requests(products[..n - 1]) + ProductRequests(n, products[n - 1])
  }

  lemma RequestsSnoc(products: seq<ProductLink>, k: nat)
    requires k < |products|
    ensures Requests(products[..k + 1]) == Requests(products[..k]) + ProductRequests(k + 1, products[k])
  {
    assert products[..k + 1][..k] == products[..k];
  }

  lemma ImageRequestsSnoc(index: nat, title: string, images: seq<ImageTag>, k: nat)
    requires k < |images|
    ensures ImageRequests(index, title, images[..k + 1])
      == ImageRequests(index, title, images[..k]) + ImageRequest(index, title, k + 1, images[k])
  {
    assert images[..k + 1][..k] == images[..k];
  }

  /** The URLs requested, in order. */
  function RequestedUrls(rs: seq<Request>): seq<string> {
    MapSeq(RequestUrl, rs)
  }

  function RequestUrl(r: Request): string {
    r.url
  }

  /** The file a request writes: its name when the response has status 200,
      nothing otherwise. */
  function Saves(r: Request): seq<string> {
    if r.fetch == Status(HTTP_OK) then [SavedName(r)] else []
  }

  /** The names of the files written, in order. */
  function SavedFiles(rs: seq<Request>): seq<string> {
    FlatMap(Saves, rs)
  }

  /** The inner `for img_index, img in enumerate(product_images, 1)` loop for
      the product at listing position `index`: returns the image URLs it
      requests and the names of the files it writes, in order. */
  method DownloadImages(index: nat, productTitle: string, productImages: seq<ImageTag>)
    returns (requested: seq<string>, saved: seq<string>)
    ensures requested == RequestedUrls(ImageRequests(index, productTitle, productImages))
    ensures saved == SavedFiles(ImageRequests(index, productTitle, productImages))
  {
    requested, saved := [], [];
    ghost var done: seq<Request> := [];
    var imgIndex := 1;
    while imgIndex <= |productImages|
      invariant 1 <= imgIndex <= |productImages| + 1
      invariant done == ImageRequests(index, productTitle, productImages[..imgIndex - 1])
      invariant requested == RequestedUrls(done) && saved == SavedFiles(done)
    {
      var img := productImages[imgIndex - 1];
      ImageRequestsSnoc(index, productTitle, productImages, imgIndex - 1);
      var imgUrl := PickUrl(img.attrs);
      if imgUrl.Some? {
        var url := Resolve(imgUrl.value);
        var r := Request(index, productTitle, imgIndex, url, img.fetch);
        RequestStep(done, r);
        done := done + [r];
        requested := requested + [url];
        if img.fetch == Status(HTTP_OK) {
          var ext := Extension(url);
          saved := saved + [FileName(index, productTitle, imgIndex, ext)];
        }
      }
      imgIndex := imgIndex + 1;
    }
    assert productImages[..|productImages|] == productImages;
  }

  /** One more request adds its URL to those requested and its file, if any,
      to those saved. */
  lemma RequestStep(done: seq<Request>, r: Request)
    ensures RequestedUrls(done + [r]) == RequestedUrls(done) + [r.url]
    ensures SavedFiles(done + [r]) == SavedFiles(done) + Saves(r)
  {
    MapSeqAppend(RequestUrl, done, [r]);
    FlatMapAppend(Saves, done, [r]);
    assert [r][..0] == [];
  }

  /** `download_product_images` after the listing page is parsed: the outer
      `for index, product in enumerate(product_links, 1)` loop. Returns the
      image URLs requested and the names of the files written, in order. */
  method DownloadProductImages(products: seq<ProductLink>) returns (requested: seq<string>, saved: seq<string>)
    ensures requested == RequestedUrls(Requests(products))
    ensures saved == SavedFiles(Requests(products))
  {
    requested, saved := [], [];
    var index := 1;
    while index <= |products|
      invariant 1 <= index <= |products| + 1
      invariant requested == RequestedUrls(Requests(products[..index - 1]))
      invariant saved == SavedFiles(Requests(products[..index - 1]))
    {
      var product := products[index - 1];
      var productTitle := CleanFilename(Strip(product.text));
      ProductStep(products, index - 1);
      if product.detail.Some? {
        var page := product.detail.value;
        var productImages := page.gallery;
        if |productImages| == 0 {
          productImages := page.fotorama;
        }
        assert productTitle == ProductTitle(product);
        assert productImages == SelectImages(page);
        ProductRequestsOf(index, product, productTitle, productImages);
        var imageUrls, imageFiles := DownloadImages(index, productTitle, productImages);
        requested := requested + imageUrls;
        saved := saved + imageFiles;
      } else {
        assert RequestedUrls(ProductRequests(index, product)) == [];
        assert SavedFiles(ProductRequests(index, product)) == [];
      }
      index := index + 1;
    }
    assert products[..|products|] == products;
  }

  /** The requests of a product whose detail page was had are those of its
      selected images, under its cleaned title. */
  lemma ProductRequestsOf(index: nat, p: ProductLink, title: string, images: seq<ImageTag>)
    requires p.detail.Some? && title == ProductTitle(p) && images == SelectImages(p.detail.value)
    ensures ProductRequests(index, p) == ImageRequests(index, title, images)
  {
  }

  /** One more product adds the URLs and files of its own requests. */
  lemma ProductStep(products: seq<ProductLink>, k: nat)
    requires k < |products|
    ensures RequestedUrls(Requests(products[..k + 1]))
      == RequestedUrls(Requests(products[..k])) + RequestedUrls(ProductRequests(k + 1, products[k]))
    ensures SavedFiles(Requests(products[..k + 1]))
      == SavedFiles(Requests(products[..k])) + SavedFiles(ProductRequests(k + 1, products[k]))
  {
    RequestsSnoc(products, k);
    MapSeqAppend(RequestUrl, Requests(products[..k]), ProductRequests(k + 1, products[k]));
    FlatMapAppend(Saves, Requests(products[..k]), ProductRequests(k + 1, products[k]));
  }


}

/** What the plan of `download_product_images` guarantees: which requests are
    made, in which order, and that the names written are distinct file names. */
module DownloadFacts {
  import opened Text
  import opened Sanitize
  import opened Urls
  import opened Download
  import opened Seqs

  /** `r` is the request made for image `r.imgIndex` of the product at listing
      position `index`, whose images are `images`. */
  ghost predicate PlannedImage(index: nat, title: string, images: seq<ImageTag>, r: Request) {
    && r.index == index && r.title == title && 1 <= r.imgIndex <= |images|
    && var img := images[r.imgIndex - 1];
       PickUrl(img.attrs).Some? && r.url == Resolve(PickUrl(img.attrs).value) && r.fetch == img.fetch
  }

  /** `r` is the request made for image `r.imgIndex` of product `r.index` of the listing. */
  ghost predicate Planned(products: seq<ProductLink>, r: Request) {
    1 <= r.index <= |products| && PlannedProduct(r.index, products[r.index - 1], r)
  }

  /** `r` is the request made for image `r.imgIndex` of product `p`, found at
      listing position `index`. */
  ghost predicate PlannedProduct(index: nat, p: ProductLink, r: Request) {
    p.detail.Some? && PlannedImage(index, ProductTitle(p), SelectImages(p.detail.value), r)
  }

  ghost predicate Ordered(rs: seq<Request>) {
    forall a, b :: 0 <= a < b < |rs| ==> Before(rs[a], rs[b])
  }

  /** Requests with the same product index carry the same title. */
  ghost predicate TitlesAgree(rs: seq<Request>) {
    forall a, b :: 0 <= a < |rs| && 0 <= b < |rs| && rs[a].index == rs[b].index ==> rs[a].title == rs[b].title
  }

  ghost predicate Distinct(names: seq<string>) {
    forall a, b :: 0 <= a < b < |names| ==> names[a] != names[b]
  }

  /** A product's requests all carry its index and title, their image indexes
      lie between 1 and the number of images and strictly increase. */
  lemma {:induction false} ImageRequestsShape(index: nat, title: string, images: seq<ImageTag>)
    ensures var rs := ImageRequests(index, title, images);
      && |rs| <= |images|
      && (forall a :: 0 <= a < |rs| ==>
            rs[a].index == index && rs[a].title == title && 1 <= rs[a].imgIndex <= |images|)
      && (forall a, b :: 0 <= a < b < |rs| ==> rs[a].imgIndex < rs[b].imgIndex)
  {
    if images != [] {
      ImageRequestsShape(index, title, images[..|images| - 1]);
    }
  }

  /** The requests for a product's images are exactly one per image that has
      a usable URL attribute, numbered by the image's position on the page. */
  lemma {:induction false} ImageRequestsExact(index: nat, title: string, images: seq<ImageTag>, r: Request)
    ensures r in ImageRequests(index, title, images) <==> PlannedImage(index, title, images, r)
  {
    if images != [] {
      var n := |images|;
      var init := images[..n - 1];
      ImageRequestsExact(index, title, init, r);
      ImageRequestExact(index, title, n, images[n - 1], r);
      assert ImageRequests(index, title, images) == ImageRequests(index, title, init) + ImageRequest(index, title, n, images[n - 1]);
      if 1 <= r.imgIndex < n {
        assert init[r.imgIndex - 1] == images[r.imgIndex - 1];
      }
    }
  }

  /** One image element gives the request for its URL, or none. */
  lemma ImageRequestExact(index: nat, title: string, imgIndex: nat, img: ImageTag, r: Request)
    ensures r in ImageRequest(index, title, imgIndex, img) <==>
      && r.index == index && r.title == title && r.imgIndex == imgIndex
      && PickUrl(img.attrs).Some? && r.url == Resolve(PickUrl(img.attrs).value) && r.fetch == img.fetch
  {
  }

  lemma ProductRequestsExact(index: nat, p: ProductLink, r: Request)
    ensures r in ProductRequests(index, p) <==> PlannedProduct(index, p, r)
  {
    if p.detail.Some? {
      ImageRequestsExact(index, ProductTitle(p), SelectImages(p.detail.value), r);
    }
  }

  /** Every image request of the run, numbered by product and by image. */
  lemma {:induction false} RequestsExact(products: seq<ProductLink>, r: Request)
    ensures r in Requests(products) <==> Planned(products, r)
  {
    if products != [] {
      var n := |products|;
      var init := products[..n - 1];
      RequestsExact(init, r);
      ProductRequestsExact(n, products[n - 1], r);
      if 1 <= r.index < n {
        assert init[r.index - 1] == products[r.index - 1];
      }
      assert PlannedProduct(n, products[n - 1], r) ==> r.index == n;
    }
  }

  /** All requests carry a product index between `lo` and `hi`. */
  ghost predicate IndexesWithin(rs: seq<Request>, lo: nat, hi: nat) {
    forall a :: 0 <= a < |rs| ==> lo <= rs[a].index <= hi
  }

  /** The requests of one product `n`, in increasing image order. */
  ghost predicate ProductBlock(rs: seq<Request>, n: nat) {
    IndexesWithin(rs, n, n) && forall a, b :: 0 <= a < b < |rs| ==> rs[a].imgIndex < rs[b].imgIndex
  }

  lemma ProductRequestsShape(n: nat, p: ProductLink)
    ensures ProductBlock(ProductRequests(n, p), n)
    ensures forall a :: 0 <= a < |ProductRequests(n, p)| ==> ProductRequests(n, p)[a].title == ProductTitle(p)
  {
    if p.detail.Some? {
      ImageRequestsShape(n, ProductTitle(p), SelectImages(p.detail.value));
    }
  }

  lemma OrderedAppend(earlier: seq<Request>, block: seq<Request>, n: nat)
    requires n >= 1 && Ordered(earlier) && IndexesWithin(earlier, 1, n - 1) && ProductBlock(block, n)
    ensures Ordered(earlier + block) && IndexesWithin(earlier + block, 1, n)
  {
    var rs := earlier + block;
    forall a, b | 0 <= a < b < |rs|
      ensures Before(rs[a], rs[b])
    {
      if b < |earlier| {
        assert rs[a] == earlier[a] && rs[b] == earlier[b];
      } else if a < |earlier| {
        assert rs[a] == earlier[a] && rs[b] == block[b - |earlier|];
      } else {
        assert rs[a] == block[a - |earlier|] && rs[b] == block[b - |earlier|];
      }
    }
    forall a | 0 <= a < |rs|
      ensures 1 <= rs[a].index <= n
    {
      if a < |earlier| {
        assert rs[a] == earlier[a];
      } else {
        assert rs[a] == block[a - |earlier|];
      }
    }
  }

  /** Requests are made product by product and, within a product, image by
      image; their product indexes lie between 1 and the number of products. */
  lemma {:induction false} RequestsOrdered(products: seq<ProductLink>)
    ensures IndexesWithin(Requests(products), 1, |products|)
    ensures Ordered(Requests(products))
  {
    if products != [] {
      var n := |products|;
      RequestsOrdered(products[..n - 1]);
      ProductRequestsShape(n, products[n - 1]);
      OrderedAppend(Requests(products[..n - 1]), ProductRequests(n, products[n - 1]), n);
    }
  }

  /** Each saved name is the name of a request answered with status 200. */
  lemma SavedFileSource(rs: seq<Request>, name: string) returns (a: nat)
    requires name in SavedFiles(rs)
    ensures a < |rs| && rs[a].fetch == Status(HTTP_OK) && SavedName(rs[a]) == name
  {
    a := FlatMapSource(Saves, rs, name);
  }

  /** Every request answered with status 200 saves its file. */
  lemma SavedFileWritten(rs: seq<Request>, a: nat)
    requires a < |rs| && rs[a].fetch == Status(HTTP_OK)
    ensures SavedName(rs[a]) in SavedFiles(rs)
  {
    FlatMapHas(Saves, rs, a, SavedName(rs[a]));
  }

  /** The names saved are exactly the names of the requests answered with
      status 200. */
  lemma SavedFilesExact(rs: seq<Request>, name: string)
    ensures name in SavedFiles(rs) <==>
      exists a :: 0 <= a < |rs| && rs[a].fetch == Status(HTTP_OK) && SavedName(rs[a]) == name
  {
    if name in SavedFiles(rs) {
      var a := SavedFileSource(rs, name);
    }
    forall a | 0 <= a < |rs| && rs[a].fetch == Status(HTTP_OK) && SavedName(rs[a]) == name
      ensures name in SavedFiles(rs)
    {
      SavedFileWritten(rs, a);
    }
  }

  /** The product index can be read back from the front of a file name. */
  lemma FileNameIndex(index: nat, title: string, imgIndex: nat, ext: string)
    ensures DecimalValue(DigitPrefix(FileName(index, title, imgIndex, ext))) == index
  {
    var rest := "_" + title + "_" + NatToString(imgIndex) + ext;
    assert FileName(index, title, imgIndex, ext) == NatToString(index) + rest;
    DigitPrefixOfDigits(NatToString(index), rest);
    DecimalRoundTrip(index);
  }

  /** Two equal file names have the same product index, and, when the
      titles agree, the same image index. */
  lemma FileNameInjective(i1: nat, t1: string, j1: nat, e1: string, i2: nat, t2: string, j2: nat, e2: string)
    requires |e1| >= 1 && e1[0] == '.' && |e2| >= 1 && e2[0] == '.'
    requires FileName(i1, t1, j1, e1) == FileName(i2, t2, j2, e2)
    ensures i1 == i2
    ensures t1 == t2 ==> j1 == j2
  {
    var rest1 := FileNameRest(i1, t1, j1, e1);
    var rest2 := FileNameRest(i2, t2, j2, e2);
    DigitsSplit(NatToString(i1), rest1, NatToString(i2), rest2);
    NatToStringInjective(i1, i2);
    if t1 == t2 {
      var head := "_" + t1 + "_";
      var tail1, tail2 := NatToString(j1) + e1, NatToString(j2) + e2;
      assert rest1 == head + tail1 && rest2 == head + tail2;
      assert tail1 == rest1[|head|..] && tail2 == rest2[|head|..];
      DigitsSplit(NatToString(j1), e1, NatToString(j2), e2);
      NatToStringInjective(j1, j2);
    }
  }

  /** A file name is the product index followed by the part that starts at
      the first `_`. */
  lemma FileNameRest(index: nat, title: string, imgIndex: nat, ext: string) returns (rest: string)
    ensures rest == "_" + title + "_" + NatToString(imgIndex) + ext
    ensures FileName(index, title, imgIndex, ext) == NatToString(index) + rest
  {
    rest := "_" + title + "_" + NatToString(imgIndex) + ext;
  }

  /** Requests in order whose titles agree per product write distinct names. */
  lemma {:induction false} DistinctNames(rs: seq<Request>)
    requires Ordered(rs) && TitlesAgree(rs)
    ensures Distinct(SavedFiles(rs))
  {
    if rs != [] {
      var init := rs[..|rs| - 1];
      var last := rs[|rs| - 1];
      assert Ordered(init) && TitlesAgree(init);
      DistinctNames(init);
      if last.fetch == Status(HTTP_OK) {
        var name := SavedName(last);
        assert SavedFiles(rs) == SavedFiles(init) + [name];
        if name in SavedFiles(init) {
          var a := SavedFileSource(init, name);
          var r := init[a];
          assert Before(rs[a], rs[|rs| - 1]);
          FileNameInjective(r.index, r.title, r.imgIndex, Extension(r.url),
                            last.index, last.title, last.imgIndex, Extension(last.url));
          assert false;
        }
        DistinctSnoc(SavedFiles(init), name);
      } else {
        assert SavedFiles(rs) == SavedFiles(init) + [];
      }
    }
  }

  lemma DistinctSnoc(names: seq<string>, name: string)
    requires Distinct(names) && name !in names
    ensures Distinct(names + [name])
  {
  }

  /** The cleaned titles of the listing, by position. */
  ghost function Titles(products: seq<ProductLink>): seq<string> {
    MapSeq(ProductTitle, products)
  }

  /** Every request carries a product index within the listing and the
      title listed at that index. */
  ghost predicate TitledBy(rs: seq<Request>, titles: seq<string>) {
    forall a :: 0 <= a < |rs| ==> 1 <= rs[a].index <= |titles| && rs[a].title == titles[rs[a].index - 1]
  }

  /** Every request carries the cleaned title of the product it belongs to. */
  lemma {:induction false} RequestsTitled(products: seq<ProductLink>)
    ensures TitledBy(Requests(products), Titles(products))
  {
    if products != [] {
      var n := |products|;
      var init := products[..n - 1];
      RequestsTitled(init);
      ProductRequestsShape(n, products[n - 1]);
      TitledByAppend(Requests(init), ProductRequests(n, products[n - 1]), Titles(init), ProductTitle(products[n - 1]));
    }
  }

  lemma TitledByAppend(earlier: seq<Request>, block: seq<Request>, titles: seq<string>, t: string)
    requires TitledBy(earlier, titles)
    requires forall a :: 0 <= a < |block| ==> block[a].index == |titles| + 1 && block[a].title == t
    ensures TitledBy(earlier + block, titles + [t])
  {
    var rs := earlier + block;
    forall a | 0 <= a < |rs|
      ensures 1 <= rs[a].index <= |titles| + 1 && rs[a].title == (titles + [t])[rs[a].index - 1]
    {
      if a < |earlier| {
        assert rs[a] == earlier[a];
      } else {
        assert rs[a] == block[a - |earlier|];
      }
    }
  }

  lemma TitledByAgree(rs: seq<Request>, titles: seq<string>)
    requires TitledBy(rs, titles)
    ensures TitlesAgree(rs)
  {
  }

  /** A run writes every file name at most once, even when products share a
      title: the product index and the image index make the name unique. */
  lemma SavedFilesDistinct(products: seq<ProductLink>)
    ensures Distinct(SavedFiles(Requests(products)))
  {
    RequestsOrdered(products);
    RequestsTitled(products);
    TitledByAgree(Requests(products), Titles(products));
    DistinctNames(Requests(products));
  }

  /** No request's title holds a `/`. */
  lemma TitledByNoSlash(rs: seq<Request>, products: seq<ProductLink>, a: nat)
    requires TitledBy(rs, Titles(products)) && a < |rs|
    ensures '/' !in rs[a].title
  {
    var j := rs[a].index - 1;
    MapSeqAt(ProductTitle, products, j);
    assert rs[a].title == ProductTitle(products[j]);
    CleanNameHasNoSlash(Strip(products[j].text));
  }

  /** Every name written is a single path component: it holds no `/`, so
      joining it to the output folder stays inside that folder. */
  lemma SavedNamesHaveNoSlash(products: seq<ProductLink>, name: string)
    requires name in SavedFiles(Requests(products))
    ensures '/' !in name
  {
    RequestsTitled(products);
    SavedNameNoSlash(Requests(products), products, name);
  }

  lemma SavedNameNoSlash(rs: seq<Request>, products: seq<ProductLink>, name: string)
    requires TitledBy(rs, Titles(products)) && name in SavedFiles(rs)
    ensures '/' !in name
  {
    var a := SavedFileSource(rs, name);
    TitledByNoSlash(rs, products, a);
    NoSlashInFileName(rs[a].index, rs[a].title, rs[a].imgIndex, Extension(rs[a].url));
  }

  lemma NoSlashInFileName(index: nat, title: string, imgIndex: nat, ext: string)
    requires '/' !in title
    requires forall k :: 0 <= k < |ext| ==> ext[k] != '/'
    ensures '/' !in FileName(index, title, imgIndex, ext)
  {
    var i, j := NatToString(index), NatToString(imgIndex);
    assert FileName(index, title, imgIndex, ext) == i + "_" + title + "_" + j + ext;
    assert '/' !in i && '/' !in j;
  }

  /** Products further down the listing never change the requests, nor the
      file names written, of the products before them. */
  lemma {:induction false} RequestsExtend(products: seq<ProductLink>, more: seq<ProductLink>)
    ensures Requests(products) <= Requests(products + more)
    ensures SavedFiles(Requests(products)) <= SavedFiles(Requests(products + more))
    decreases |more|
  {
    if more != [] {
      var init := more[..|more| - 1];
      RequestsExtend(products, init);
      assert (products + more)[..|products + more| - 1] == products + init;
    } else {
      assert products + more == products;
    }
    FlatMapPrefix(Saves, Requests(products), Requests(products + more));
  }
}
