/**
 * Public-id extraction of helper/helper.js (deleteImagesFromCloudinary).
 *
 * The helper matches each image URL against the JavaScript regular
 * expression  /\/v\d+\/(.+)\.\w{3,4}$/  (no flags) and destroys the image
 * whose public id is the captured group.  Under JavaScript's semantics
 * without flags: `\d` is an ASCII digit, `\w` an ASCII letter, digit or
 * underscore, `.` any character but a line terminator, and `$` the end of
 * the input; the first match is the one starting leftmost.
 *
 * `IsMatchAt` states declaratively when the pattern matches from a given
 * position; `MatchAt`, `FirstMatchFrom` and `PublicId` compute the match and
 * are proved to agree with it.  The destroy calls are recorded in a log.
 */
module Cloudinary {
  import opened Wrappers

  predicate IsDigit(c: char) {
    '0' <= c <= '9'
  }

  predicate IsWordChar(c: char) {
    ('a' <= c <= 'z') || ('A' <= c <= 'Z') || IsDigit(c) || c == '_'
  }

  /** The characters JavaScript's `.` does not match without the `s` flag. */
  predicate IsLineTerminator(c: char) {
    c == '\n' || c == '\r' || c == '\U{2028}' || c == '\U{2029}'
  }

  /** `sub` occurs in `s` starting at position `i`. */
  predicate OccursAt(s: string, sub: string, i: nat) {
    i + |sub| <= |s| && s[i..i + |sub|] == sub
  }

  /** `s.includes(sub)`. */
  function Contains(s: string, sub: string): (r: bool)
    ensures r <==> exists i: nat :: OccursAt(s, sub, i)
    decreases |s|
  {
    if |s| < |sub| then
      assert forall i: nat :: !OccursAt(s, sub, i);
      false
    else if OccursAt(s, sub, 0) then true
    else
      var r := Contains(s[1..], sub);
      assert forall i: nat :: OccursAt(s[1..], sub, i) <==> OccursAt(s, sub, i + 1) by {
        forall i: nat ensures OccursAt(s[1..], sub, i) <==> OccursAt(s, sub, i + 1) {
          if i + 1 + |sub| <= |s| {
            assert s[1..][i..i + |sub|] == s[i + 1..i + 1 + |sub|];
          }
        }
      }
      assert r <==> exists i: nat :: OccursAt(s, sub, i) by {
        if !r {
          forall i: nat ensures !OccursAt(s, sub, i) {
            if i > 0 {
              assert OccursAt(s, sub, i) <==> OccursAt(s[1..], sub, i - 1);
            }
          }
        }
      }
      r
  }

  /**
   * The pattern matches with its match starting at `p`: `/v` at `p`, the
   * digits of the version up to the slash at `q`, the captured id between
   * `q` and the dot at `e`, and 3 or 4 word characters after the dot up to
   * the end of the string.
   */
  ghost predicate IsMatchAt(s: string, p: int, q: int, e: int) {
    && 0 <= p && p + 2 < q && q + 1 < e < |s|
    && s[p] == '/' && s[p + 1] == 'v'
    && (forall j :: p + 2 <= j < q ==> IsDigit(s[j]))
    && s[q] == '/'
    && (forall j :: q + 1 <= j < e ==> !IsLineTerminator(s[j]))
    && s[e] == '.'
    && 4 <= |s| - e <= 5
    && (forall j :: e < j < |s| ==> IsWordChar(s[j]))
  }

  /** The end of the run of digits that starts at `k`. */
  function DigitRunEnd(s: string, k: nat): (q: nat)
    requires k <= |s|
    ensures k <= q <= |s|
    ensures forall j :: k <= j < q ==> IsDigit(s[j])
    ensures q < |s| ==> !IsDigit(s[q])
    decreases |s| - k
  {
    if k < |s| && IsDigit(s[k]) then DigitRunEnd(s, k + 1) else k
  }

  /** The position of the dot of a trailing `.` + 3 or 4 word characters. */
  function ExtensionDot(s: string): (r: Option<nat>)
    ensures r.Some? ==> r.value < |s| && s[r.value] == '.' && 4 <= |s| - r.value <= 5
    ensures r.Some? ==> forall j :: r.value < j < |s| ==> IsWordChar(s[j])
    ensures forall e :: 0 <= e < |s| && s[e] == '.' && 4 <= |s| - e <= 5 && (forall j :: e < j < |s| ==> IsWordChar(s[j]))
              ==> r == Some(e)
  {
    var n := |s|;
    if n >= 4 && s[n - 4] == '.' && IsWordChar(s[n - 3]) && IsWordChar(s[n - 2]) && IsWordChar(s[n - 1]) then
      Some(n - 4)
    else if n >= 5 && s[n - 5] == '.' && IsWordChar(s[n - 4]) && IsWordChar(s[n - 3]) && IsWordChar(s[n - 2]) && IsWordChar(s[n - 1]) then
      Some(n - 5)
    else
      None
  }

  predicate NoLineTerminator(s: string, from: nat, to: nat)
    requires from <= to <= |s|
  {
    forall j :: from <= j < to ==> !IsLineTerminator(s[j])
  }

  /**
   * The captured group of a match starting at `p`, if there is one.  The
   * match from a given start is unique: the version digits must run up to
   * the slash, and the dot before the extension is fixed by the end.
   */
  function MatchAt(s: string, p: nat): (r: Option<string>)
    ensures r.Some? <==> exists q, e :: IsMatchAt(s, p, q, e)
    ensures forall q, e :: IsMatchAt(s, p, q, e) ==> r == Some(s[q + 1..e])
  {
    if p + 2 <= |s| && s[p] == '/' && s[p + 1] == 'v' then
      var q := DigitRunEnd(s, p + 2);
      if p + 2 < q < |s| && s[q] == '/' then
        match ExtensionDot(s)
        case Some(e) =>
          if q + 1 < e && NoLineTerminator(s, q + 1, e) then
            assert IsMatchAt(s, p, q, e);
            Some(s[q + 1..e])
          else
            NoMatchAt(s, p, q, Some(e));
            None
        case None =>
          NoMatchAt(s, p, q, None);
          None
      else
        NoMatchAt(s, p, q, ExtensionDot(s));
        None
    else
      None
  }

  /** Any match starting at `p` has its slash at the end of the digit run and its dot where ExtensionDot says. */
  lemma MatchPositions(s: string, p: nat, q: int, e: int)
    requires IsMatchAt(s, p, q, e)
    ensures q == DigitRunEnd(s, p + 2)
    ensures ExtensionDot(s) == Some(e)
  {
  }

  /** Helper for MatchAt's failing branches: no (q', e') matches from `p`. */
  lemma NoMatchAt(s: string, p: nat, q: nat, dot: Option<nat>)
    requires p + 2 <= |s| && q == DigitRunEnd(s, p + 2) && dot == ExtensionDot(s)
    requires !(p + 2 < q < |s| && s[q] == '/' && dot.Some? && q + 1 < dot.value && NoLineTerminator(s, q + 1, dot.value))
    ensures forall q', e' :: !IsMatchAt(s, p, q', e')
  {
  }

  /** The leftmost match starting at or after `k`, as `String.prototype.match` finds it. */
  function FirstMatchFrom(s: string, k: nat): (r: Option<string>)
    decreases |s| + 1 - k
  {
    if k > |s| then None
    else
      var m := MatchAt(s, k);
      if m.Some? then m else FirstMatchFrom(s, k + 1)
  }

  /** If nothing matches in [k, p) and something matches at p, the leftmost match from k is the one at p. */
  lemma {:induction false} FirstMatchReaches(s: string, k: nat, p: nat)
    requires k <= p <= |s|
    requires MatchAt(s, p).Some?
    requires forall p' :: k <= p' < p ==> MatchAt(s, p').None?
    ensures FirstMatchFrom(s, k) == MatchAt(s, p)
    decreases p - k
  {
    if k < p {
      FirstMatchReaches(s, k + 1, p);
    }
  }

  /** The search from `k` comes back empty exactly when no position from `k` on matches. */
  lemma {:induction false} FirstMatchNone(s: string, k: nat)
    ensures FirstMatchFrom(s, k).None? <==> forall p :: k <= p <= |s| ==> MatchAt(s, p).None?
    decreases |s| + 1 - k
  {
    if k <= |s| {
      FirstMatchNone(s, k + 1);
    }
  }

  /** A result of the search is the match at some position with none before it. */
  lemma {:induction false} FirstMatchFound(s: string, k: nat) returns (p: nat)
    requires FirstMatchFrom(s, k).Some?
    ensures k <= p <= |s| && MatchAt(s, p) == FirstMatchFrom(s, k)
    ensures forall p' :: k <= p' < p ==> MatchAt(s, p').None?
    decreases |s| + 1 - k
  {
    if MatchAt(s, k).Some? {
      p := k;
    } else {
      p := FirstMatchFound(s, k + 1);
    }
  }

  /** The public id the helper reads from `imageUrl.match(regex)[1]`. */
  function PublicId(url: string): (r: Option<string>) {
    FirstMatchFrom(url, 0)
  }

  /**
   * What PublicId returns, without reference to how it searches: some id
   * exactly when the pattern matches somewhere, and then the id captured by
   * the leftmost match; a returned id is never empty and never carries the
   * extension.
   */
  lemma PublicIdSpec(url: string)
    ensures PublicId(url).None? <==> forall p, q, e :: !IsMatchAt(url, p, q, e)
    ensures PublicId(url).Some? ==>
      exists p, q, e :: IsMatchAt(url, p, q, e) && PublicId(url).value == url[q + 1..e]
        && forall p', q', e' :: 0 <= p' < p ==> !IsMatchAt(url, p', q', e')
    ensures PublicId(url).Some? ==> |PublicId(url).value| > 0
  {
    var r := PublicId(url);
    FirstMatchNone(url, 0);
    if r.None? {
      forall p: nat, q, e | p <= |url| ensures !IsMatchAt(url, p, q, e) {
        assert MatchAt(url, p).None?;
      }
    } else {
      var p := FirstMatchFound(url, 0);
      var q, e :| IsMatchAt(url, p, q, e);
      MatchPositions(url, p, q, e);
      forall p', q', e' | 0 <= p' < p ensures !IsMatchAt(url, p', q', e') {
        assert MatchAt(url, p').None?;
      }
      assert r.value == url[q + 1..e];
    }
  }

  /** A URL of the form prefix + "/v" + version + "/" + id + "." + ext. */
  function ImageUrl(prefix: string, version: string, id: string, ext: string): (url: string)
    ensures |url| == |prefix| + |version| + |id| + |ext| + 4
  {
    prefix + "/v" + version + "/" + id + "." + ext
  }

  /**
   * Round trip: the id of a URL built from an id is that id, provided the
   * version is all digits, the id is a non-empty run of non-line-terminators,
   * the extension has 3 or 4 word characters, and the prefix holds no
   * "/v" followed by a digit.  A "/v" followed by anything else (a cloud
   * name starting with `v`, a `/video/upload/` path) does not disturb it.
   */
  lemma PublicIdOfImageUrl(prefix: string, version: string, id: string, ext: string)
    requires |version| > 0 && forall j :: 0 <= j < |version| ==> IsDigit(version[j])
    requires |id| > 0 && forall j :: 0 <= j < |id| ==> !IsLineTerminator(id[j])
    requires 3 <= |ext| <= 4 && forall j :: 0 <= j < |ext| ==> IsWordChar(ext[j])
    requires forall j :: 0 <= j && j + 2 < |prefix| ==> !VersionMarkerAt(prefix, j)
    ensures PublicId(ImageUrl(prefix, version, id, ext)) == Some(id)
  {
    var s := ImageUrl(prefix, version, id, ext);
    var p := |prefix|;
    var q := p + 2 + |version|;
    var e := q + 1 + |id|;
    ImageUrlLayout(prefix, version, id, ext);
    assert IsMatchAt(s, p, q, e);
    assert s[q + 1..e] == id;
    forall p' | 0 <= p' < p ensures MatchAt(s, p').None? {
      forall q', e' ensures !IsMatchAt(s, p', q', e') {
        if p' + 2 < p {
          assert !VersionMarkerAt(prefix, p');
        }
      }
    }
    FirstMatchReaches(s, 0, p);
  }

  /** A "/v" followed by a digit starts at `j`: where a version segment could begin. */
  predicate VersionMarkerAt(s: string, j: nat)
    requires j + 2 < |s|
  {
    s[j] == '/' && s[j + 1] == 'v' && IsDigit(s[j + 2])
  }

  /** Where each part of an ImageUrl lies. */
  lemma ImageUrlLayout(prefix: string, version: string, id: string, ext: string)
    ensures var s := ImageUrl(prefix, version, id, ext);
      var p := |prefix|;
      var q := p + 2 + |version|;
      var e := q + 1 + |id|;
      && |s| == e + 1 + |ext|
      && (forall j :: 0 <= j < p ==> s[j] == prefix[j])
      && s[p] == '/' && s[p + 1] == 'v'
      && (forall j :: p + 2 <= j < q ==> s[j] == version[j - (p + 2)])
      && s[q] == '/'
      && (forall j :: q + 1 <= j < e ==> s[j] == id[j - (q + 1)])
      && s[e] == '.'
      && (forall j :: e + 1 <= j < |s| ==> s[j] == ext[j - (e + 1)])
  {
  }

  /** A URL without any "/v" (no version segment) yields no id, so no destroy call. */
  lemma NoVersionSegmentNoId(url: string)
    requires !Contains(url, "/v")
    ensures PublicId(url).None?
  {
    FirstMatchNone(url, 0);
    forall p: nat | p <= |url| ensures MatchAt(url, p).None? {
      assert !OccursAt(url, "/v", p);
      if p + 2 <= |url| {
        assert url[p..p + 2] == [url[p], url[p + 1]];
      }
    }
  }

  /**
   * The decision taken for one URL: a destroy call with the public id when
   * the URL mentions "cloudinary" and yields a non-empty id, nothing otherwise.
   */
  function DestroyTarget(url: string): (r: Option<string>)
    ensures r.Some? ==> Contains(url, "cloudinary") && PublicId(url) == r && |r.value| > 0
    ensures !Contains(url, "cloudinary") ==> r.None?
    ensures Contains(url, "cloudinary") ==> r == PublicId(url)
  {
    PublicIdSpec(url);
    if Contains(url, "cloudinary") then
      match PublicId(url)
      case Some(id) => if |id| > 0 then Some(id) else None
      case None => None
    else
      None
  }

  /** The destroy calls made for one URL: none or one. */
  function DestroyCalls(url: string): (ids: seq<string>)
    ensures |ids| <= 1
  {
    match DestroyTarget(url)
    case Some(id) => [id]
    case None => []
  }

  /** The ids destroyed for a list of URLs, in list order. */
  function DestroyedIds(urls: seq<string>): (ids: seq<string>)
    ensures |ids| <= |urls|
  {
    if urls == [] then [] else DestroyCalls(urls[0]) + DestroyedIds(urls[1..])
  }

  /** Each URL is handled on its own: the ids of a concatenation concatenate. */
  lemma {:induction false} DestroyedIdsConcat(a: seq<string>, b: seq<string>)
    ensures DestroyedIds(a + b) == DestroyedIds(a) + DestroyedIds(b)
  {
    if a == [] {
      assert a + b == b;
    } else {
      assert (a + b)[0] == a[0];
      assert (a + b)[1..] == a[1..] + b;
      DestroyedIdsConcat(a[1..], b);
    }
  }

  /** Every destroyed id was extracted from some URL of the list that mentions "cloudinary". */
  lemma {:induction false} DestroyedIdsFromUrls(urls: seq<string>)
    ensures forall id :: id in DestroyedIds(urls) ==>
      exists i :: 0 <= i < |urls| && Contains(urls[i], "cloudinary") && PublicId(urls[i]) == Some(id)
  {
    if urls != [] {
      DestroyedIdsFromUrls(urls[1..]);
      forall id | id in DestroyedIds(urls)
        ensures exists i :: 0 <= i < |urls| && Contains(urls[i], "cloudinary") && PublicId(urls[i]) == Some(id)
      {
        if id in DestroyCalls(urls[0]) {
          assert Contains(urls[0], "cloudinary") && PublicId(urls[0]) == Some(id);
        } else {
          var i :| 0 <= i < |urls[1..]| && Contains(urls[1..][i], "cloudinary") && PublicId(urls[1..][i]) == Some(id);
          assert urls[i + 1] == urls[1..][i];
        }
      }
    }
  }

  /**
   * deleteImagesFromCloudinary: one `cloudinary.uploader.destroy(publicId)`
   * per URL whose public id was extracted, recorded in order in `destroyed`.
   */
  method DeleteImagesFromCloudinary(imageUrls: seq<string>) returns (destroyed: seq<string>)
    ensures destroyed == DestroyedIds(imageUrls)
  {
    destroyed := [];
    for i := 0 to |imageUrls|
      invariant destroyed == DestroyedIds(imageUrls[..i])
    {
      var imageUrl := imageUrls[i];
      DestroyedIdsConcat(imageUrls[..i], [imageUrl]);
      assert imageUrls[..i + 1] == imageUrls[..i] + [imageUrl];
      if Contains(imageUrl, "cloudinary") {
        var publicId := PublicId(imageUrl);
        if publicId.Some? && |publicId.value| > 0 {
          destroyed := destroyed + [publicId.value];
        }
      }
    }
    assert imageUrls[..|imageUrls|] == imageUrls;
  }
}
