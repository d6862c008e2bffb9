/** Choosing, normalising and naming an image URL: the attribute fallback
    (`src`, then `data-src`, then `data-lazy-src`), the `//` prefixing and the
    extension taken with `os.path.splitext`. */
module Urls {
  import opened Wrappers

  /** The attributes tried for an image's URL, in priority order. */
  const URL_ATTRIBUTES: seq<string> := ["src", "data-src", "data-lazy-src"]

  /** The extension written when the URL has none. */
  const DEFAULT_EXTENSION: string := ".jpg"

  /** BeautifulSoup's `tag.get(key)`: the attribute's value, or `None`. */
  function Get(attrs: map<string, string>, key: string): Option<string> {
    if key in attrs then Some(attrs[key]) else None
  }

  /** Python truthiness of an optional string: neither `None` nor `''`. */
  predicate Truthy(v: Option<string>) {
    v.Some? && v.value != ""
  }

  /** Python's `a or b`: `a` when it is truthy, otherwise `b`. */
  function Or(a: Option<string>, b: Option<string>): Option<string> {
    if Truthy(a) then a else b
  }

  /** The attribute values tried, in priority order. */
  function UrlCandidates(attrs: map<string, string>): seq<Option<string>> {
    [Get(attrs, URL_ATTRIBUTES[0]), Get(attrs, URL_ATTRIBUTES[1]), Get(attrs, URL_ATTRIBUTES[2])]
  }

  /** The first truthy value of a list, as Python's `a or b or c` followed by
      a truthiness test would find it. */
  function FirstTruthy(vs: seq<Option<string>>): Option<string> {
    if vs == [] then None
    else if Truthy(vs[0]) then vs[0]
    else FirstTruthy(vs[1..])
  }

  /** `FirstTruthy` finds a value exactly when some value is truthy, and the
      value it finds is truthy and preceded only by values that are not. */
  lemma {:induction false} FirstTruthySpec(vs: seq<Option<string>>)
    ensures FirstTruthy(vs).Some? <==> exists i :: 0 <= i < |vs| && Truthy(vs[i])
    ensures FirstTruthy(vs).Some? ==> (FirstTruthy(vs).value != "" &&
      exists i :: 0 <= i < |vs| && vs[i] == FirstTruthy(vs) && forall h :: 0 <= h < i ==> !Truthy(vs[h]))
  {
    if vs != [] && !Truthy(vs[0]) {
      FirstTruthySpec(vs[1..]);
      assert forall i :: 1 <= i < |vs| ==> vs[i] == vs[1..][i - 1];
      if FirstTruthy(vs).Some? {
        var j :| 0 <= j < |vs[1..]| && vs[1..][j] == FirstTruthy(vs) && forall h :: 0 <= h < j ==> !Truthy(vs[1..][h]);
        assert vs[j + 1] == FirstTruthy(vs);
        assert forall h :: 0 <= h < j + 1 ==> !Truthy(vs[h]) by {
          forall h | 0 <= h < j + 1 ensures !Truthy(vs[h]) {
            if h > 0 { assert vs[h] == vs[1..][h - 1]; }
          }
        }
      }
    }
  }

  /** The URL an image element is fetched from, or `None` when the element
      is skipped: the `or`-chain over the three attributes followed by the
      `if img_url:` test. It is the first of the three values that is present
      and non-empty. */
  function PickUrl(attrs: map<string, string>): (r: Option<string>)
    ensures r == FirstTruthy(UrlCandidates(attrs))
  {
    var src, dataSrc, lazySrc := Get(attrs, "src"), Get(attrs, "data-src"), Get(attrs, "data-lazy-src");
    var url := Or(Or(src, dataSrc), lazySrc);
    var vs := UrlCandidates(attrs);
    assert vs[1..] == [dataSrc, lazySrc] && vs[1..][1..] == [lazySrc] && vs[1..][1..][1..] == [];
    assert FirstTruthy(vs[1..][1..]) == if Truthy(lazySrc) then lazySrc else None;
    assert FirstTruthy(vs[1..]) == if Truthy(dataSrc) then dataSrc else FirstTruthy(vs[1..][1..]);
    if Truthy(url) then url else None
  }

  /** The image URL is the value of the first attribute, in the order `src`,
      `data-src`, `data-lazy-src`, that is present and non-empty; the image
      has none exactly when no such attribute exists. */
  lemma PickUrlSpec(attrs: map<string, string>)
    ensures PickUrl(attrs).Some? <==>
      exists i :: 0 <= i < |URL_ATTRIBUTES| && Truthy(Get(attrs, URL_ATTRIBUTES[i]))
    ensures PickUrl(attrs).Some? ==> (PickUrl(attrs).value != "" &&
      exists i :: 0 <= i < |URL_ATTRIBUTES| && Get(attrs, URL_ATTRIBUTES[i]) == PickUrl(attrs)
        && forall h :: 0 <= h < i ==> !Truthy(Get(attrs, URL_ATTRIBUTES[h])))
  {
    var vs := UrlCandidates(attrs);
    FirstTruthySpec(vs);
    assert |vs| == |URL_ATTRIBUTES|;
    assert forall i :: 0 <= i < |vs| ==> vs[i] == Get(attrs, URL_ATTRIBUTES[i]);
  }

  /** Protocol-relative URLs get the `https:` scheme; others are kept. The
      result never starts with `//`. */
  function Resolve(url: string): (r: string)
    ensures !("//" <= r)
    ensures "//" <= url ==> r == "https:" + url
    ensures !("//" <= url) ==> r == url
  {
    if "//" <= url then
      var r := "https:" + url;
      assert r[0] == 'h';
      r
    else
      url
  }

  /** Resolving an already resolved URL changes nothing. */
  lemma ResolveIdempotent(url: string)
    ensures Resolve(Resolve(url)) == Resolve(url)
  {
  }

  /** Python's `s.rfind(c)`: the last position of `c`, or -1. */
  function RFind(s: string, c: char): (r: int)
    ensures -1 <= r < |s|
    ensures r >= 0 ==> s[r] == c
    ensures forall k :: r < k < |s| ==> s[k] != c
  {
    if s == [] then -1
    else if s[|s| - 1] == c then |s| - 1
    else RFind(s[..|s| - 1], c)
  }

  predicate HasNonDot(s: string) {
    exists k :: 0 <= k < |s| && s[k] != '.'
  }

  /** `os.path.splitext` on POSIX (CPython's `genericpath._splitext` with
      separator `/`): the extension runs from the last dot when that dot
      follows the last slash and some character other than a dot stands
      between the slash and the dot; otherwise there is no extension. */
  function SplitExt(p: string): (string, string) {
    var sepIndex := RFind(p, '/');
    var dotIndex := RFind(p, '.');
    if dotIndex > sepIndex && HasNonDot(p[sepIndex + 1..dotIndex]) then
      (p[..dotIndex], p[dotIndex..])
    else
      (p, "")
  }

  /** The two parts put back together give the path; a non-empty extension
      is one dot followed by characters that are neither dots nor slashes. */
  lemma SplitExtShape(p: string)
    ensures SplitExt(p).0 + SplitExt(p).1 == p
    ensures SplitExt(p).1 == [] || SplitExt(p).1[0] == '.'
    ensures forall k :: 1 <= k < |SplitExt(p).1| ==> SplitExt(p).1[k] != '.'
    ensures forall k :: 0 <= k < |SplitExt(p).1| ==> SplitExt(p).1[k] != '/'
  {
    var sepIndex := RFind(p, '/');
    var dotIndex := RFind(p, '.');
    var ext := SplitExt(p).1;
    if ext != [] {
      assert ext == p[dotIndex..];
      assert p[..dotIndex] + p[dotIndex..] == p;
      forall k | 0 <= k < |ext|
        ensures ext[k] == p[dotIndex + k] && dotIndex + k > sepIndex
      {
      }
    }
  }

  predicate NoSlashFrom(p: string, k: nat) {
    forall m :: k <= m < |p| ==> p[m] != '/'
  }

  /** `p` ends in a path segment with a dot that has a character other than
      a dot before it in that segment. */
  ghost predicate HasExtension(p: string) {
    exists k, d :: 0 <= k < d < |p| && p[k] != '.' && p[d] == '.' && NoSlashFrom(p, k)
  }

  /** `SplitExt` finds an extension exactly when the last path segment has a
      dot preceded by a non-dot character, and the extension is then the
      part of `p` from its last dot on. */
  lemma SplitExtSpec(p: string)
    ensures SplitExt(p).1 != [] <==> HasExtension(p)
  {
    if SplitExt(p).1 != [] {
      SplitExtSound(p);
    }
    if HasExtension(p) {
      SplitExtComplete(p);
    }
  }

  lemma SplitExtSound(p: string)
    requires SplitExt(p).1 != []
    ensures HasExtension(p)
  {
    var sepIndex := RFind(p, '/');
    var dotIndex := RFind(p, '.');
    var seg := p[sepIndex + 1..dotIndex];
    var j :| 0 <= j < |seg| && seg[j] != '.';
    var k := sepIndex + 1 + j;
    assert p[k] == seg[j];
    assert NoSlashFrom(p, k);
  }

  lemma SplitExtComplete(p: string)
    requires HasExtension(p)
    ensures SplitExt(p).1 != []
  {
    var k, d :| 0 <= k < d < |p| && p[k] != '.' && p[d] == '.' && NoSlashFrom(p, k);
    var sepIndex := RFind(p, '/');
    var dotIndex := RFind(p, '.');
    assert d <= dotIndex by {
      RFindIsLast(p, '.', d);
    }
    assert sepIndex < k by {
      RFindIsBefore(p, '/', k);
    }
    var seg := p[sepIndex + 1..dotIndex];
    assert seg[k - sepIndex - 1] == p[k];
    assert HasNonDot(seg);
    assert SplitExt(p) == (p[..dotIndex], p[dotIndex..]);
  }

  /** `RFind` reports no position at or after `k` when `c` does not occur there. */
  lemma RFindIsBefore(s: string, c: char, k: nat)
    requires forall m :: k <= m < |s| ==> s[m] != c
    ensures RFind(s, c) < k
  {
  }

  /** No occurrence of `c` lies after the one `RFind` reports. */
  lemma RFindIsLast(s: string, c: char, d: nat)
    requires d < |s| && s[d] == c
    ensures d <= RFind(s, c)
  {
  }

  /** `os.path.splitext(url)[1] or '.jpg'`: always a dot followed by
      characters that are neither dots nor slashes. */
  function Extension(url: string): (ext: string)
    ensures |ext| >= 1 && ext[0] == '.'
    ensures forall k :: 1 <= k < |ext| ==> ext[k] != '.'
    ensures forall k :: 0 <= k < |ext| ==> ext[k] != '/'
  {
    SplitExtShape(url);
    var parts := SplitExt(url);
    if parts.1 != [] then parts.1 else DEFAULT_EXTENSION
  }

  /** The extension is the URL's own, a suffix of the URL, when the URL has
      one, and `.jpg` otherwise. */
  lemma ExtensionSpec(url: string)
    ensures HasExtension(url) ==> |Extension(url)| <= |url| && Extension(url) == url[|url| - |Extension(url)|..]
    ensures !HasExtension(url) ==> Extension(url) == DEFAULT_EXTENSION
  {
    SplitExtSpec(url);
    SplitExtShape(url);
    var parts := SplitExt(url);
    assert url[|parts.0|..] == parts.1;
  }
}
