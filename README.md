# Popcultcha image downloader, modelled in Dafny

The repository is a small scraper. It reads a product listing page of the
Popcultcha web shop and visits each product's detail page. It downloads every
product image and saves it as `{product index}_{clean title}_{image index}{extension}`.
This project models the logic of its one script,
`download_images/download_images.py`, and proves properties of that model:

- `clean_filename` deletes the nine characters `< > : " / \ | ? *`, one
  `str.replace` at a time, and then keeps the first 150 characters.
- The planning logic of `download_product_images` does the following:
  - Products are numbered from 1 in listing order. Each product's title is
    `get_text().strip()` passed through `clean_filename`.
  - The `gallery-placeholder__image` images are used when there are any.
    Otherwise the `fotorama__img` images are used.
  - Images are numbered from 1 within their product.
  - An image's URL is the first value among `src`, `data-src` and
    `data-lazy-src` that is present and non-empty. An image without one is
    skipped, but its number is still used up.
  - A URL starting with `//` gets `https:` in front of it.
  - Only a response with status 200 is saved. Its extension comes from
    `os.path.splitext(url)[1]`, or is `.jpg` when that is empty.

The network and the HTML parser are replaced by input data:

- A product (`Download.ProductLink`) is its link text plus its parsed detail
  page. The page is `None` when fetching or parsing it raised.
- An image element (`Download.ImageTag`) is its attribute map plus the outcome
  of fetching its URL: a status code, or `Raised`.

The run is described by a specification function, `Download.Requests`, which
lists the image requests made (product index, title, image index, URL,
outcome). `Download.RequestedUrls` and `Download.SavedFiles` project from it
the URLs fetched and the names written.

The two nested `enumerate` loops are methods:

- `Download.DownloadProductImages` is the outer loop.
- `Download.DownloadImages` is the inner loop.

Both are proved to compute exactly those projections. Module `DownloadFacts`
proves what the plan guarantees:

- the requests are exactly one per usable image, numbered by position;
- they come in product order, then image order;
- the file names written are pairwise distinct, even for identical titles;
- no file name contains a `/`;
- later products never change the files of earlier ones.

Files:

- `wrappers.dfy`: `Option`.
- `text.dfy`: Python's `str.strip()` and `str(int)`.
- `clean_filename.dfy`: `clean_filename`.
- `urls.dfy`: the attribute fallback, the `//` rule, `os.path.splitext` and
  the extension.
- `seqs.dfy`: two generic sequence combinators.
- `download.dfy`: the run and its properties.

Notes on the code's behaviour, which the model keeps:

- Every matched `<img>` element is numbered, including those skipped for
  lack of a URL.
- A response with a status other than 200 is passed over silently; nothing
  is logged for it.
- The two image selectors are tried one after the other: the fotorama
  images are looked for only when there are no gallery images.

## Model

| member | source | states |
|---|---|---|
| Sanitize.CleanFilename | download_images/download_images.py:24-38 | the loop of one `replace(char, '')` per invalid character followed by `[:150]` returns `CleanName(title)` |
| Sanitize.CleanName | download_images/download_images.py:35-38 | the cleaned title holds none of the nine invalid characters and has at most 150 characters |
| Sanitize.CleanNameSpec | download_images/download_images.py:35-38 | the cleaned title is exactly the first `min(150, n)` characters of the title with the invalid characters deleted; it is a subsequence of the title; when nothing is cut off, every valid character occurs as often as in the title |
| Sanitize.CleanNameFixedPoint | download_images/download_images.py:35-38 | a title of at most 150 characters with no invalid character is returned unchanged |
| Sanitize.CleanNameIdempotent | download_images/download_images.py:35-38 | cleaning a cleaned title changes nothing |
| Sanitize.CleanNameHasNoSlash | download_images/download_images.py:35-37 | a cleaned title holds no `/` |
| Sanitize.DeleteOneMore | download_images/download_images.py:36-37 | one more `replace(c, '')` after a batch of deletions is the deletion of the batch plus `c` |
| Sanitize.DeleteAllInOrder | download_images/download_images.py:36-37 | deleting characters keeps the others in their order |
| Sanitize.DeleteAllCounts | download_images/download_images.py:36-37 | deleting removes every occurrence of a listed character and no occurrence of any other |
| Sanitize.Truncate | download_images/download_images.py:38 | `s[:n]` is a prefix of `s` of exactly `min(n, len(s))` characters, and is `s` itself when `s` is short enough |
| Sanitize.DeleteAll | download_images/download_images.py:36-37 | the characters of a batch all deleted: the result is no longer than the input and holds none of them; `DeleteAllInOrder` and `DeleteAllCounts` state that the others are kept, in order and in number |
| Sanitize.Delete | download_images/download_images.py:37 | `replace(c, '')` is the deletion of the one-character batch `[c]`; `DeleteOneMore` states that it extends a batch deletion by `c` |
| Text.IsSpace | download_images/download_images.py:68 | the characters `str.isspace()` accepts, by which `strip()` trims; used by the contracts of `StripStart`, `StripEnd` and `StripIsTrim` |
| Text.Strip | download_images/download_images.py:68 | `strip()`; `StripIsTrim` states that it is the slice left after cutting a maximal run of whitespace off each end |
| Text.StripIsTrim | download_images/download_images.py:68 | `strip()` returns a slice `s[i..j]`; everything outside it is whitespace and its first and last characters are not |
| Text.StripStart | download_images/download_images.py:68 | the leading whitespace is dropped: a suffix of the text whose first character is not whitespace |
| Text.StripEnd | download_images/download_images.py:68 | the trailing whitespace is dropped: a prefix of the text whose last character is not whitespace |
| Text.NatToString | download_images/download_images.py:99 | `str(n)` of a non-negative index is one or more decimal digits with no leading zero; it starts with `0` only for `0`, which is then the whole text |
| Text.DecimalRoundTrip | download_images/download_images.py:99 | reading the decimal text of `n` back gives `n` |
| Text.NatToStringInjective | download_images/download_images.py:99 | different indexes are rendered differently |
| Urls.Get | download_images/download_images.py:85 | `img.get(key)`: the attribute's value, or `None` when absent; `PickUrlSpec` states the choice in its terms |
| Urls.Truthy | download_images/download_images.py:85-87 | Python truthiness of an attribute value: present and non-empty; `FirstTruthySpec` and `PickUrlSpec` use it for the `or`-chain and the `if img_url:` test |
| Urls.Or | download_images/download_images.py:85 | Python's `a or b` on attribute values; `PickUrl` is proved equal to the first truthy candidate |
| Urls.PickUrl | download_images/download_images.py:85-87 | the `or`-chain plus the `if img_url:` test is the first truthy candidate |
| Urls.FirstTruthySpec | download_images/download_images.py:85-87 | a value is found exactly when some candidate is present and non-empty; the value found is such a candidate, and every candidate before it is absent or empty |
| Urls.PickUrlSpec | download_images/download_images.py:85-87 | the URL chosen is the value of the first attribute, in the order `src`, `data-src`, `data-lazy-src`, that is present and non-empty; there is none exactly when no attribute qualifies |
| Urls.Resolve | download_images/download_images.py:89-90 | a URL starting with `//` becomes `https:` + URL; any other URL is unchanged; the result never starts with `//` |
| Urls.ResolveIdempotent | download_images/download_images.py:89-90 | resolving a resolved URL changes nothing |
| Urls.RFind | download_images/download_images.py:96 | the position of the last occurrence of a character, or -1 when there is none |
| Urls.SplitExt | download_images/download_images.py:96 | `os.path.splitext` with `/` as separator; `SplitExtShape` and `SplitExtSpec` state its result |
| Urls.SplitExtShape | download_images/download_images.py:96 | the two parts of `splitext` concatenate to the path; a non-empty extension is a dot followed by characters that are neither dots nor slashes |
| Urls.SplitExtSpec | download_images/download_images.py:96 | `splitext` finds an extension exactly when the last path segment holds a dot preceded, within that segment, by a character other than a dot |
| Urls.Extension | download_images/download_images.py:96 | the extension used always starts with a dot, holds no further dot and holds no `/` |
| Urls.ExtensionSpec | download_images/download_images.py:96 | the extension is the URL's own suffix when the URL has one, and `.jpg` otherwise |
| Download.SelectImages | download_images/download_images.py:77-79 | the gallery images when there are any, otherwise the fotorama images; empty exactly when both are |
| Download.ProductTitle | download_images/download_images.py:68 | `clean_filename(product.get_text().strip())`; `RequestsTitled` states that every request carries it, `StripIsTrim` and `CleanNameSpec` what it is |
| Download.FileName | download_images/download_images.py:99 | `f"{index}_{title}_{img_index}{ext}"`; `FileNameIndex`, `FileNameInjective` and `NoSlashInFileName` state that the indexes read back, that equal names have equal indexes, and that it adds no `/` |
| Download.ImageRequest | download_images/download_images.py:85-93 | the request one `<img>` element gives rise to, or none; `ImageRequestExact` states when and with which URL and outcome |
| Download.ImageRequests | download_images/download_images.py:82-93 | the inner loop's plan; `ImageRequestsExact` and `ImageRequestsShape` state which requests it holds and in which order |
| Download.ProductRequests | download_images/download_images.py:73-93 | one product's plan; `ProductRequestsExact` and `ProductRequestsShape` state it |
| Download.Requests | download_images/download_images.py:64-93 | the whole run's plan; `RequestsExact`, `RequestsOrdered`, `RequestsTitled` and `RequestsExtend` state it |
| Download.RequestedUrls | download_images/download_images.py:93 | the URLs fetched, one per request, in order; `DownloadProductImages` is proved to request exactly these |
| Download.SavedName | download_images/download_images.py:96-99 | the name a request's response is saved under: `FileName` of its indexes, its title and `Extension` of its URL; `SavedFilesExact`, `SavedFilesDistinct` and `SavedNamesHaveNoSlash` state what the names written are |
| Download.Saves | download_images/download_images.py:94-99 | one request's file: its `SavedName` when the response has status 200, nothing otherwise; `SavedFileSource` and `SavedFileWritten` state it |
| Download.SavedFiles | download_images/download_images.py:94-104 | the names written, in order; `SavedFilesExact`, `SavedFilesDistinct` and `SavedNamesHaveNoSlash` state it |
| Download.DownloadImages | download_images/download_images.py:82-108 | the inner loop requests exactly `RequestedUrls` and saves exactly `SavedFiles` of the product's image requests |
| Download.DownloadProductImages | download_images/download_images.py:64-114 | the outer loop requests exactly `RequestedUrls(Requests(products))` and saves exactly `SavedFiles(Requests(products))` |
| DownloadFacts.ImageRequestsShape | download_images/download_images.py:82-99 | a product's requests carry its index and title; their image indexes lie between 1 and the number of images and strictly increase |
| DownloadFacts.ImageRequestsExact | download_images/download_images.py:82-94 | a request is made for a product's image exactly when that image has a usable URL; the request carries the image's 1-based position, the resolved URL and the image's fetch outcome |
| DownloadFacts.ProductRequestsExact | download_images/download_images.py:73-94 | a product whose detail page failed makes no image request; otherwise its requests are those of its selected images |
| DownloadFacts.ProductRequestsShape | download_images/download_images.py:73-99 | a product's requests carry its index and cleaned title, with strictly increasing image indexes |
| DownloadFacts.RequestsExact | download_images/download_images.py:64-94 | the requests of the run are exactly one per usable image of each product whose page was had, numbered by listing position and image position, with no index reused after a failed product; with `RequestsOrdered`, whose order is strict, there is exactly one request per usable image |
| DownloadFacts.RequestsOrdered | download_images/download_images.py:64-82 | requests come product by product and, within a product, image by image; their product indexes lie between 1 and the number of products |
| DownloadFacts.RequestsTitled | download_images/download_images.py:64-68 | every request carries the cleaned title of the product at its index |
| DownloadFacts.SavedFileSource | download_images/download_images.py:94-104 | every name written belongs to a request answered with status 200 |
| DownloadFacts.SavedFileWritten | download_images/download_images.py:94-104 | every request answered with status 200 writes its file |
| DownloadFacts.SavedFilesExact | download_images/download_images.py:94-104 | the names written are exactly those of the requests answered with status 200 |
| DownloadFacts.FileNameIndex | download_images/download_images.py:99 | the product index can be read back from the digits at the front of a file name |
| DownloadFacts.FileNameInjective | download_images/download_images.py:99 | equal file names have equal product indexes and, when the titles agree, equal image indexes |
| DownloadFacts.DistinctNames | download_images/download_images.py:94-99 | ordered requests whose titles agree per product write pairwise distinct names |
| DownloadFacts.SavedFilesDistinct | download_images/download_images.py:64-99 | a run never writes the same file name twice, even when products share a title |
| DownloadFacts.SavedNamesHaveNoSlash | download_images/download_images.py:96-100 | no name written contains a `/`, so joining it to the folder stays inside the folder |
| DownloadFacts.NoSlashInFileName | download_images/download_images.py:99 | a file name built from a title and an extension without `/` holds no `/` |
| DownloadFacts.RequestsExtend | download_images/download_images.py:64-114 | appending products to the listing never changes the requests of the products before them, nor the file names they write |

## Left out

- HTTP is not modelled: the listing fetch (line 56), the detail-page fetch
  (line 73), the image fetch (line 93) and the browser headers (lines 51-53).
  Each image carries the outcome of its fetch as input data. Each product
  carries its parsed detail page, or `None` when fetching or parsing raised.
- The listing fetch and parse (lines 56-60) are outside any `try`, so a
  failure there aborts the run. The model starts from the list of product links.
- BeautifulSoup parsing (lines 57, 60, 74, 77, 79) is a foreign library.
  Its `find_all` results are the input lists.
- The product's `href` (line 67) is not modelled. It only feeds the detail-page
  fetch, whose outcome is input data.
- Folder creation (lines 19-22, 48), `os.path.join` (line 100) and the file
  write (lines 103-104) are file-system I/O and are not modelled.
  `SavedFiles` lists the names opened for writing. The model assumes the
  folder exists as a directory or can be created. Otherwise `os.makedirs`
  at line 21 raises outside any `try`, and the run ends before the first
  request. If something that is not a directory already has that name,
  nothing is created and every write fails, as described below.
- A write that raises is caught at line 110. The model assumes `open` and
  `write` at lines 103-104 succeed. Otherwise the name is still in
  `SavedFiles`, but its file may be missing or partial.
- `print` logging (lines 61, 70, 105, 111, 114) is not modelled. The model
  assumes `print` never raises, that is, stdout can encode every title and
  error message. Otherwise a raise at line 70 skips the product, one at
  line 111 skips the rest of the product's images, one at line 105 skips only
  the delay after the write, and one at line 61 or 114 ends the run.
- `time.sleep` (line 108, and the commented-out line 117) is not modelled.
  The model assumes it returns normally.
- `create_fiftyone_dataset` (lines 119-123) and `main` (lines 125-132) call an
  external dataset tool and hard-code a URL. The tool's `*.png` glob does not
  match the `.jpg` default extension.
- `os.path.splitext` is modelled as on POSIX, with `/` as the only
  separator. Windows separators are not modelled.
- `str.strip()` is modelled with the fixed set of code points that Python's
  `str.isspace()` accepts. Unicode database versions are not modelled.
- Text is a sequence of Unicode scalar values. Byte encodings and
  file-system limits on name length are not modelled.
- The extension is not sanitised. A URL whose last segment carries a
  query, as in `a.jpg?v=1`, gives a suffix with characters that
  `clean_filename` would delete. The model keeps this behaviour and does not
  single it out.
