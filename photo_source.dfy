/**
 * The photo-source client (`VKAPIClient` in main.py): it turns an album
 * listing into the manifest `photo_info.json` and the list of downloads it
 * performs. The listing request, the image fetches and the file writes are
 * not modelled; the listing arrives as a value and the downloads leave as
 * a returned log.
 */
module PhotoSource {
  import opened Wrappers
  import opened Decimal
  import Timestamp

  /** One size variant of a photo: `{type, url}` (missing keys read as ""). */
  datatype Size = Size(kind: string, url: string)

  /**
   * One element of `response.items`: `likes.count` (missing reads as 0),
   * `date` in epoch seconds (missing reads as 0) and `sizes` (missing reads
   * as []).
   */
  datatype Item = Item(likes: int, date: nat, sizes: seq<Size>)

  /** One record of `photo_info.json`: `{file_name, size}`. */
  datatype SavedPhoto = SavedPhoto(fileName: string, size: string)

  /** One image fetched from `url` and written to `storage/<fileName>`. */
  datatype Download = Download(url: string, fileName: string)

  /** The listing response: HTTP status, the body's `error.error_code` if any, and its items. */
  datatype Listing = Listing(statusCode: int, errorCode: Option<int>, items: seq<Item>)

  /** What `photos_download` reports. */
  datatype Outcome =
    | Downloaded(manifest: seq<SavedPhoto>)  // photo_info.json was written; the summary counts |manifest|
    | DateOutOfRange(date: nat)              // utcfromtimestamp raised; photo_info.json is not written
    | MissingImageUrl(fileName: string)      // the kept variant has no url: requests.get('') raised; photo_info.json is not written
    | ResponseError(errorCode: int)          // 2xx reply whose body carries a non-zero error code
    | RequestError(statusCode: int)          // reply outside 200..299

  predicate Is2xx(status: int) { 200 <= status < 300 }

  /** The two size types the client accepts: "w" and "z". */
  predicate IsLarge(s: Size) { s.kind == "w" || s.kind == "z" }

  // ---------------------------------------------------------------------------
  // File names

  /** Some earlier item of the listing has the same like count as item `i`. */
  predicate SeenBefore(items: seq<Item>, i: nat)
    requires i < |items|
  {
    exists j :: 0 <= j < i && items[j].likes == items[i].likes
  }

  /** Naming item `i` does not raise: its date is only formatted when it needs the suffix. */
  predicate Nameable(items: seq<Item>, i: nat)
    requires i < |items|
  {
    !SeenBefore(items, i) || Timestamp.Representable(items[i].date)
  }

  predicate AllNameable(items: seq<Item>) {
    forall i :: 0 <= i < |items| ==> Nameable(items, i)
  }

  /** The file name of item `i`: its like count, a timestamp suffix for a repeated count, then ".jpg". */
  function FileName(items: seq<Item>, i: nat): (name: string)
    requires i < |items| && Nameable(items, i)
    ensures |name| >= |Str(items[i].likes)| + 4
    ensures name[..|Str(items[i].likes)|] == Str(items[i].likes)
    ensures name[|name| - 4..] == ".jpg"
    ensures |name| == |Str(items[i].likes)| + (if SeenBefore(items, i) then 23 else 4)
  {
    Str(items[i].likes) + (if SeenBefore(items, i) then Timestamp.Suffix(items[i].date) else "") + ".jpg"
  }

  /**
   * The name is the bare like count plus ".jpg" exactly when no earlier
   * item (kept or skipped) had the same count; otherwise the UTC suffix of
   * the item's date sits between the count and the extension.
   */
  lemma FileNameShape(items: seq<Item>, i: nat)
    requires i < |items| && Nameable(items, i)
    ensures FileName(items, i) == Str(items[i].likes) + ".jpg" <==> !SeenBefore(items, i)
    ensures SeenBefore(items, i) ==>
      FileName(items, i) == Str(items[i].likes) + Timestamp.Suffix(items[i].date) + ".jpg"
  {
    if SeenBefore(items, i) {
      assert |FileName(items, i)| == |Str(items[i].likes)| + 23;
    }
  }

  lemma SplitEqual(a: string, b: string, c: string, d: string)
    requires a + b == c + d && |a| == |c|
    ensures a == c && b == d
  {
    assert a == (a + b)[..|a|] && c == (c + d)[..|c|];
    assert b == (a + b)[|a|..] && d == (c + d)[|c|..];
  }

  predicate NoSpace(s: string) {
    forall i :: 0 <= i < |s| ==> s[i] != ' '
  }

  lemma StrNoSpace(n: int)
    ensures NoSpace(Str(n))
  {
  }

  /** The position of the first space of `s`, or `|s|` when there is none. */
  function SpaceIndex(s: string): (k: nat)
    ensures k <= |s|
  {
    if s == [] || s[0] == ' ' then 0 else 1 + SpaceIndex(s[1..])
  }

  lemma {:induction false} SpaceIndexAfter(a: string, x: string)
    requires NoSpace(a) && |x| > 0 && x[0] == ' '
    ensures SpaceIndex(a + x) == |a|
  {
    if a != [] {
      assert (a + x)[1..] == a[1..] + x;
      SpaceIndexAfter(a[1..], x);
    }
  }

  /** Of two strings that start with a space-free part and then a space, the parts have equal length. */
  lemma SpaceMarksLength(a: string, x: string, b: string, y: string)
    requires NoSpace(a) && NoSpace(b)
    requires |x| > 0 && |y| > 0 && x[0] == ' ' && y[0] == ' '
    requires a + x == b + y
    ensures |a| == |b|
  {
    SpaceIndexAfter(a, x);
    SpaceIndexAfter(b, y);
  }

  /** A bare name never equals a suffixed one: only the suffixed one holds a space. */
  lemma BareIsNotSuffixed(x: int, y: int, t: nat)
    requires Timestamp.Representable(t)
    ensures Str(x) + ".jpg" != Str(y) + Timestamp.Suffix(t) + ".jpg"
  {
    var bare, suffixed := Str(x) + ".jpg", Str(y) + Timestamp.Suffix(t) + ".jpg";
    StrNoSpace(x);
    assert NoSpace(bare);
    assert suffixed[|Str(y)|] == ' ';
  }

  /** Two suffixed names are equal exactly when the like counts and the suffixes are. */
  lemma SuffixedNamesEqual(x: int, y: int, t: nat, u: nat)
    requires Timestamp.Representable(t) && Timestamp.Representable(u)
    ensures Str(x) + Timestamp.Suffix(t) + ".jpg" == Str(y) + Timestamp.Suffix(u) + ".jpg"
        <==> x == y && Timestamp.Suffix(t) == Timestamp.Suffix(u)
  {
    var a, b := Str(x), Str(y);
    var st, su := Timestamp.Suffix(t), Timestamp.Suffix(u);
    assert a + st + ".jpg" == a + (st + ".jpg");
    assert b + su + ".jpg" == b + (su + ".jpg");
    if a + st + ".jpg" == b + su + ".jpg" {
      StrNoSpace(x);
      StrNoSpace(y);
      SpaceMarksLength(a, st + ".jpg", b, su + ".jpg");
      SplitEqual(a, st + ".jpg", b, su + ".jpg");
      SplitEqual(st, ".jpg", su, ".jpg");
      StrInjective(x, y);
    }
  }

  /**
   * Items `i < j` get the same file name exactly when item `i` already
   * carries a suffix and the two share the like count and the UTC minute.
   */
  lemma FileNameCollision(items: seq<Item>, i: nat, j: nat)
    requires i < j < |items| && Nameable(items, i) && Nameable(items, j)
    ensures FileName(items, i) == FileName(items, j)
        <==> SeenBefore(items, i) && items[i].likes == items[j].likes
             && items[i].date / Timestamp.SecondsPerMinute == items[j].date / Timestamp.SecondsPerMinute
  {
    var x, y := items[i].likes, items[j].likes;
    if x == y {
      assert SeenBefore(items, j);
    }
    if SeenBefore(items, i) && SeenBefore(items, j) {
      SuffixedNamesEqual(x, y, items[i].date, items[j].date);
      Timestamp.SuffixInjective(items[i].date, items[j].date);
    } else if SeenBefore(items, i) {
      BareIsNotSuffixed(y, x, items[i].date);
    } else if SeenBefore(items, j) {
      BareIsNotSuffixed(x, y, items[j].date);
    } else {
      StrInjective(x, y);
      assert FileName(items, i) == Str(x) + ".jpg" && FileName(items, j) == Str(y) + ".jpg";
      if FileName(items, i) == FileName(items, j) {
        SplitEqual(Str(x), ".jpg", Str(y), ".jpg");
      }
    }
  }

  // ---------------------------------------------------------------------------
  // Size selection

  /**
   * The index of the size variant the client keeps: the LAST entry whose
   * type is "w" or "z", whichever of the two it is.
   */
  function LastLargeIndex(sizes: seq<Size>): (r: Option<nat>)
    ensures r.Some? ==> r.value < |sizes| && IsLarge(sizes[r.value])
    ensures r.Some? ==> forall j :: r.value < j < |sizes| ==> !IsLarge(sizes[j])
    ensures r.None? <==> forall j :: 0 <= j < |sizes| ==> !IsLarge(sizes[j])
  {
    if sizes == [] then None
    else if IsLarge(sizes[|sizes| - 1]) then Some(|sizes| - 1)
    else LastLargeIndex(sizes[..|sizes| - 1])
  }

  /** A "z" listed after a "w" wins: the choice follows list order, not a fixed preference. */
  lemma LastMatchWins(w: string, z: string)
    ensures LastLargeIndex([Size("w", w), Size("z", z)]) == Some(1)
    ensures LastLargeIndex([Size("z", z), Size("w", w)]) == Some(1)
  {
  }

  /**
   * The inner loop over `sizes`: `(type, url)` of the last "w" or "z"
   * entry, or `("", "")` when there is none.
   */
  method SelectSize(sizes: seq<Size>) returns (fileSize: string, fileUrl: string)
    ensures LastLargeIndex(sizes).None? ==> fileSize == "" && fileUrl == ""
    ensures LastLargeIndex(sizes).Some? ==>
      var k := LastLargeIndex(sizes).value; fileSize == sizes[k].kind && fileUrl == sizes[k].url
  {
    fileSize, fileUrl := "", "";
    for n := 0 to |sizes|
      invariant LastLargeIndex(sizes[..n]).None? ==> fileSize == "" && fileUrl == ""
      invariant LastLargeIndex(sizes[..n]).Some? ==>
        var k := LastLargeIndex(sizes[..n]).value; fileSize == sizes[k].kind && fileUrl == sizes[k].url
    {
      assert sizes[..n + 1][..n] == sizes[..n];
      if sizes[n].kind == "w" {
        fileSize, fileUrl := sizes[n].kind, sizes[n].url;
      } else if sizes[n].kind == "z" {
        fileSize, fileUrl := sizes[n].kind, sizes[n].url;
      }
    }
    assert sizes[..|sizes|] == sizes;
  }

  // ---------------------------------------------------------------------------
  // The manifest

  /** The manifest records and downloads produced by a walk over a prefix of the listing. */
  datatype Pass = Pass(manifest: seq<SavedPhoto>, downloads: seq<Download>)

  /**
   * Manifest and downloads after the first `n` items: an item with a "w"
   * or "z" variant adds one record and one download under its file name,
   * other items add nothing.
   */
  function PassUpTo(items: seq<Item>, n: nat): (p: Pass)
    requires n <= |items| && forall i :: 0 <= i < n ==> Nameable(items, i)
    ensures |p.manifest| == |p.downloads| <= n
    ensures forall k :: 0 <= k < |p.manifest| ==>
      p.manifest[k].fileName == p.downloads[k].fileName && (p.manifest[k].size == "w" || p.manifest[k].size == "z")
  {
    if n == 0 then Pass([], [])
    else
      var p := PassUpTo(items, n - 1);
      match LastLargeIndex(items[n - 1].sizes)
      case None => p
      case Some(k) =>
        var v, name := items[n - 1].sizes[k], FileName(items, n - 1);
        Pass(p.manifest + [SavedPhoto(name, v.kind)], p.downloads + [Download(v.url, name)])
  }

  /** The indices, in listing order, of the first `n` items that have a "w" or "z" variant. */
  function KeptIndices(items: seq<Item>, n: nat): (ks: seq<nat>)
    requires n <= |items|
    ensures forall a :: 0 <= a < |ks| ==> ks[a] < n && LastLargeIndex(items[ks[a]].sizes).Some?
  {
    if n == 0 then []
    else KeptIndices(items, n - 1) + (if LastLargeIndex(items[n - 1].sizes).Some? then [n - 1] else [])
  }

  /** The kept indices are strictly increasing and miss no item with a "w" or "z" variant. */
  lemma KeptIndicesOrdered(items: seq<Item>, n: nat)
    requires n <= |items|
    ensures var ks := KeptIndices(items, n);
      && (forall a, b :: 0 <= a < b < |ks| ==> ks[a] < ks[b])
      && (forall i :: 0 <= i < n && LastLargeIndex(items[i].sizes).Some? ==> i in ks)
  {
    KeptIndicesIncreasing(items, n);
    KeptIndicesComplete(items, n);
  }

  lemma {:induction false} KeptIndicesIncreasing(items: seq<Item>, n: nat)
    requires n <= |items|
    ensures forall a, b :: 0 <= a < b < |KeptIndices(items, n)| ==> KeptIndices(items, n)[a] < KeptIndices(items, n)[b]
  {
    if n > 0 {
      KeptIndicesIncreasing(items, n - 1);
      var ks0, ks := KeptIndices(items, n - 1), KeptIndices(items, n);
      assert ks == ks0 + (if LastLargeIndex(items[n - 1].sizes).Some? then [n - 1] else []);
      forall a, b | 0 <= a < b < |ks|
        ensures ks[a] < ks[b]
      {
        assert ks[a] == ks0[a];
        if b == |ks0| {
          assert ks0[a] < n - 1;
          assert ks[b] == n - 1;
        } else {
          assert ks[b] == ks0[b];
        }
      }
    }
  }

  lemma {:induction false} KeptIndicesComplete(items: seq<Item>, n: nat)
    requires n <= |items|
    ensures forall i :: 0 <= i < n && LastLargeIndex(items[i].sizes).Some? ==> i in KeptIndices(items, n)
  {
    if n > 0 {
      KeptIndicesComplete(items, n - 1);
      var ks0 := KeptIndices(items, n - 1);
      if LastLargeIndex(items[n - 1].sizes).Some? {
        assert KeptIndices(items, n) == ks0 + [n - 1];
      } else {
        assert KeptIndices(items, n) == ks0;
      }
    }
  }

  /** `rec` and `dl` are the manifest record and the download that item `i` contributes. */
  predicate Contributes(items: seq<Item>, i: nat, rec: SavedPhoto, dl: Download)
    requires i < |items| && Nameable(items, i)
  {
    var chosen := LastLargeIndex(items[i].sizes);
    && chosen.Some?
    && rec == SavedPhoto(FileName(items, i), items[i].sizes[chosen.value].kind)
    && dl == Download(items[i].sizes[chosen.value].url, FileName(items, i))
  }

  /** Record and download `k` of the walk over the first `n` items come from the `k`-th kept item. */
  predicate IndexedUpTo(items: seq<Item>, n: nat)
    requires n <= |items| && forall i :: 0 <= i < n ==> Nameable(items, i)
  {
    var p, ks := PassUpTo(items, n), KeptIndices(items, n);
    && |p.manifest| == |ks|
    && forall k :: 0 <= k < |ks| ==> Contributes(items, ks[k], p.manifest[k], p.downloads[k])
  }

  /**
   * The manifest is the in-order subsequence of items with a "w" or "z"
   * variant: record `k` names the `k`-th such item and carries the type of
   * its last "w"/"z" entry, and download `k` fetches that entry's URL.
   */
  lemma {:induction false} PassIndexed(items: seq<Item>, n: nat)
    requires n <= |items| && forall i :: 0 <= i < n ==> Nameable(items, i)
    ensures IndexedUpTo(items, n)
  {
    if n > 0 {
      PassIndexed(items, n - 1);
      if LastLargeIndex(items[n - 1].sizes).Some? {
        PassIndexedKeep(items, n);
      } else {
        assert KeptIndices(items, n) == KeptIndices(items, n - 1);
        assert PassUpTo(items, n) == PassUpTo(items, n - 1);
      }
    }
  }

  /** The step of `PassIndexed` where item `n - 1` is kept. */
  lemma PassIndexedKeep(items: seq<Item>, n: nat)
    requires 0 < n <= |items| && forall i :: 0 <= i < n ==> Nameable(items, i)
    requires LastLargeIndex(items[n - 1].sizes).Some?
    requires IndexedUpTo(items, n - 1)
    ensures IndexedUpTo(items, n)
  {
    var p, ks := PassUpTo(items, n - 1), KeptIndices(items, n - 1);
    var p', ks' := PassUpTo(items, n), KeptIndices(items, n);
    var v := items[n - 1].sizes[LastLargeIndex(items[n - 1].sizes).value];
    var rec, dl := SavedPhoto(FileName(items, n - 1), v.kind), Download(v.url, FileName(items, n - 1));
    assert ks' == ks + [n - 1];
    assert p'.manifest == p.manifest + [rec] && p'.downloads == p.downloads + [dl];
    assert Contributes(items, n - 1, rec, dl);
    forall k | 0 <= k < |ks'|
      ensures Contributes(items, ks'[k], p'.manifest[k], p'.downloads[k])
    {
      if k < |ks| {
        assert Contributes(items, ks[k], p.manifest[k], p.downloads[k]);
        assert ks'[k] == ks[k] && p'.manifest[k] == p.manifest[k] && p'.downloads[k] == p.downloads[k];
      } else {
        assert ks'[k] == n - 1 && p'.manifest[k] == rec && p'.downloads[k] == dl;
      }
    }
  }

  /**
   * Two records of the manifest share a file name exactly when the later
   * item's like count had already been seen by the earlier item and both
   * fall in the same UTC minute.
   */
  lemma ManifestNameCollision(items: seq<Item>, k: nat, l: nat)
    requires AllNameable(items)
    requires k < l < |PassUpTo(items, |items|).manifest|
    ensures var m, ks := PassUpTo(items, |items|).manifest, KeptIndices(items, |items|);
      && |ks| == |m| && ks[k] < ks[l]
      && ((m[k].fileName == m[l].fileName)
          <==> SeenBefore(items, ks[k]) && items[ks[k]].likes == items[ks[l]].likes
               && items[ks[k]].date / Timestamp.SecondsPerMinute == items[ks[l]].date / Timestamp.SecondsPerMinute)
  {
    PassIndexed(items, |items|);
    KeptIndicesOrdered(items, |items|);
    var p, ks := PassUpTo(items, |items|), KeptIndices(items, |items|);
    assert Contributes(items, ks[k], p.manifest[k], p.downloads[k]);
    assert Contributes(items, ks[l], p.manifest[l], p.downloads[l]);
    FileNameCollision(items, ks[k], ks[l]);
  }

  /** Items that never share both like count and UTC minute yield pairwise distinct file names. */
  lemma ManifestNamesDistinct(items: seq<Item>)
    requires AllNameable(items)
    requires forall i, j :: 0 <= i < j < |items| ==>
      items[i].likes != items[j].likes
      || items[i].date / Timestamp.SecondsPerMinute != items[j].date / Timestamp.SecondsPerMinute
    ensures var m := PassUpTo(items, |items|).manifest;
      forall k, l :: 0 <= k < l < |m| ==> m[k].fileName != m[l].fileName
  {
    var m := PassUpTo(items, |items|).manifest;
    forall k, l | 0 <= k < l < |m|
      ensures m[k].fileName != m[l].fileName
    {
      ManifestNameCollision(items, k, l);
    }
  }

  /** What item `i` adds to the walk: its record and download when it has a "w" or "z" variant, else nothing. */
  function ItemPass(items: seq<Item>, i: nat): (q: Pass)
    requires i < |items| && Nameable(items, i)
    ensures |q.manifest| == |q.downloads| <= 1
    ensures |q.manifest| == 1 <==> LastLargeIndex(items[i].sizes).Some?
    ensures |q.manifest| == 1 ==> Contributes(items, i, q.manifest[0], q.downloads[0])
  {
    match LastLargeIndex(items[i].sizes)
    case None => Pass([], [])
    case Some(k) =>
      var v := items[i].sizes[k];
      Pass([SavedPhoto(FileName(items, i), v.kind)], [Download(v.url, FileName(items, i))])
  }

  /** One step of the walk: item `i` appends what `ItemPass` says it adds. */
  lemma PassStep(items: seq<Item>, i: nat)
    requires i < |items| && forall j :: 0 <= j <= i ==> Nameable(items, j)
    ensures var p, q := PassUpTo(items, i), ItemPass(items, i);
      PassUpTo(items, i + 1) == Pass(p.manifest + q.manifest, p.downloads + q.downloads)
  {
    var p := PassUpTo(items, i);
    if LastLargeIndex(items[i].sizes).None? {
      assert p.manifest + [] == p.manifest && p.downloads + [] == p.downloads;
    }
  }

  /** The like counts of the first `n` items: the set `number_likes` after `n` steps. */
  function LikesUpTo(items: seq<Item>, n: nat): set<int>
    requires n <= |items|
  {
    set j | 0 <= j < n :: items[j].likes
  }

  lemma SeenStep(items: seq<Item>, i: nat)
    requires i < |items|
    ensures items[i].likes in LikesUpTo(items, i) <==> SeenBefore(items, i)
    ensures LikesUpTo(items, i + 1) == LikesUpTo(items, i) + {items[i].likes}
  {
    if SeenBefore(items, i) {
      var j :| 0 <= j < i && items[j].likes == items[i].likes;
      assert items[i].likes == items[j].likes;
    }
    assert LikesUpTo(items, i + 1) == LikesUpTo(items, i) + {items[i].likes};
  }

  /**
   * The image of item `i` can be requested: the item keeps no variant, or
   * the kept variant has a URL (`requests.get('')` raises).
   */
  predicate Fetchable(items: seq<Item>, i: nat)
    requires i < |items|
  {
    var chosen := LastLargeIndex(items[i].sizes);
    chosen.None? || items[i].sizes[chosen.value].url != ""
  }

  /** The walk passes item `i` without raising: it can be named and, when kept, fetched. */
  predicate Completes(items: seq<Item>, i: nat)
    requires i < |items|
  {
    Nameable(items, i) && Fetchable(items, i)
  }

  /** Every item of the listing completes. */
  predicate AllComplete(items: seq<Item>) {
    && (forall i :: 0 <= i < |items| ==> Nameable(items, i))
    && (forall i :: 0 <= i < |items| ==> Fetchable(items, i))
  }

  /** The first item at which the walk raises. */
  predicate IsFirstFailing(items: seq<Item>, c: nat) {
    && c < |items| && !Completes(items, c)
    && (forall i :: 0 <= i < c ==> Nameable(items, i))
    && (forall i :: 0 <= i < c ==> Fetchable(items, i))
  }

  /** What the walk reports when it raises at item `c`: the date error comes first, as naming precedes the fetch. */
  function Failure(items: seq<Item>, c: nat): (r: Outcome)
    requires c < |items| && !Completes(items, c)
    ensures !Nameable(items, c) ==> r == DateOutOfRange(items[c].date)
    ensures Nameable(items, c) ==> r == MissingImageUrl(FileName(items, c)) && !Fetchable(items, c)
  {
    if !Nameable(items, c) then DateOutOfRange(items[c].date) else MissingImageUrl(FileName(items, c))
  }

  /**
   * Naming step of `__download_file` for item `i`, given the like counts
   * of the items before it: the bare count for a new count (which joins
   * the set), the count and the date suffix for a repeated one, then
   * ".jpg". `None` when the date cannot be formatted (the source raises).
   */
  method NameItem(items: seq<Item>, i: nat, seen: set<int>) returns (fileName: Option<string>, seen': set<int>)
    requires i < |items| && seen == LikesUpTo(items, i)
    ensures fileName.Some? <==> Nameable(items, i)
    ensures fileName.Some? ==> fileName.value == FileName(items, i) && seen' == LikesUpTo(items, i + 1)
  {
    SeenStep(items, i);
    var likes := items[i].likes;
    var name := Str(likes);
    seen' := seen;
    if likes in seen {
      if !Timestamp.Representable(items[i].date) {
        return None, seen';
      }
      name := name + Timestamp.Suffix(items[i].date);
    } else {
      seen' := seen' + {likes};
    }
    name := name + ".jpg";
    fileName := Some(name);
  }

  /**
   * Size selection and fetch of item `i`, named `fileName`: the record and
   * download it adds (the record is appended before `requests.get` runs),
   * or `fetched == false` when the kept variant has no URL, where
   * `requests.get('')` raises.
   */
  method KeepItem(items: seq<Item>, i: nat, fileName: string) returns (fetched: bool, step: Pass)
    requires i < |items| && (forall j :: 0 <= j <= i ==> Nameable(items, j)) && fileName == FileName(items, i)
    ensures fetched <==> Fetchable(items, i)
    ensures fetched ==> step == ItemPass(items, i)
    ensures fetched ==> var p := PassUpTo(items, i);
      PassUpTo(items, i + 1) == Pass(p.manifest + step.manifest, p.downloads + step.downloads)
  {
    PassStep(items, i);
    var fileSize, fileUrl := SelectSize(items[i].sizes);
    if fileSize != "" && fileUrl == "" {
      return false, Pass([], []);
    }
    fetched := true;
    if fileSize != "" {
      step := Pass([SavedPhoto(fileName, fileSize)], [Download(fileUrl, fileName)]);
    } else {
      step := Pass([], []);
    }
  }

  /** A prefix of completing items grows by an item that completes. */
  lemma CompletePrefixStep(items: seq<Item>, i: nat)
    requires i < |items| && Nameable(items, i) && Fetchable(items, i)
    requires forall j :: 0 <= j < i ==> Nameable(items, j)
    requires forall j :: 0 <= j < i ==> Fetchable(items, j)
    ensures forall j :: 0 <= j < i + 1 ==> Nameable(items, j)
    ensures forall j :: 0 <= j < i + 1 ==> Fetchable(items, j)
  {
  }

  /**
   * One pass of the loop body of `__download_file` over item `i`, given
   * the like counts of the items before it: the failure it raises, or the
   * new set of like counts and what the item adds to the manifest and the
   * downloads.
   */
  method VisitItem(items: seq<Item>, i: nat, seen: set<int>) returns (failure: Option<Outcome>, seen': set<int>, step: Pass)
    requires i < |items| && seen == LikesUpTo(items, i)
    requires forall j :: 0 <= j < i ==> Nameable(items, j)
    ensures failure.None? <==> Completes(items, i)
    ensures failure.None? ==> Nameable(items, i) && Fetchable(items, i)
    ensures failure.Some? ==> failure.value == Failure(items, i)
    ensures failure.None? ==> seen' == LikesUpTo(items, i + 1)
    ensures failure.None? ==> var p := PassUpTo(items, i);
      PassUpTo(items, i + 1) == Pass(p.manifest + step.manifest, p.downloads + step.downloads)
  {
    var name;
    name, seen' := NameItem(items, i, seen);
    if name.None? {
      return Some(DateOutOfRange(items[i].date)), seen', Pass([], []);
    }
    var fetched;
    fetched, step := KeepItem(items, i, name.value);
    if !fetched {
      return Some(MissingImageUrl(name.value)), seen', step;
    }
    failure := None;
  }

  /**
   * `__download_file`: walk the items in order with the set of like counts
   * seen so far, name each item, keep it when it has a "w" or "z" variant.
   * When an item needs a date the `datetime` type cannot hold, or its kept
   * variant has no URL to fetch, the walk stops there: the downloads made
   * so far stay, no manifest is written.
   */
  method DownloadFiles(items: seq<Item>) returns (result: Outcome, downloads: seq<Download>)
    ensures AllComplete(items) ==>
      result == Downloaded(PassUpTo(items, |items|).manifest) && downloads == PassUpTo(items, |items|).downloads
    ensures !AllComplete(items) ==>
      exists c: nat :: IsFirstFailing(items, c) && result == Failure(items, c)
        && downloads == PassUpTo(items, c).downloads
  {
    var seen: set<int> := {};
    var manifest: seq<SavedPhoto> := [];
    downloads := [];
    var i := 0;
    while i < |items|
      invariant 0 <= i <= |items|
      invariant forall j :: 0 <= j < i ==> Nameable(items, j)
      invariant forall j :: 0 <= j < i ==> Fetchable(items, j)
      invariant seen == LikesUpTo(items, i)
      invariant Pass(manifest, downloads) == PassUpTo(items, i)
    {
      var failure, seen', step := VisitItem(items, i, seen);
      if failure.Some? {
        result := failure.value;
        assert IsFirstFailing(items, i) && result == Failure(items, i) && downloads == PassUpTo(items, i).downloads;
        return;
      }
      CompletePrefixStep(items, i);
      seen := seen';
      manifest := manifest + step.manifest;
      downloads := downloads + step.downloads;
      i := i + 1;
    }
    result := Downloaded(manifest);
  }

  // ---------------------------------------------------------------------------
  // Response dispatch

  /** How `photos_download` routes a listing reply. */
  datatype Route = Proceed | ApiFailure(errorCode: int) | TransportFailure(statusCode: int)

  /**
   * A reply is processed only when its status is 2xx and the body's error
   * code (0 when absent) is 0; otherwise the failure carries the error code
   * of a 2xx reply or the status of any other.
   */
  function Dispatch(statusCode: int, errorCode: Option<int>): (r: Route)
    ensures r.Proceed? <==> Is2xx(statusCode) && errorCode.GetOr(0) == 0
    ensures r.ApiFailure? <==> Is2xx(statusCode) && errorCode.GetOr(0) != 0
    ensures r.ApiFailure? ==> r.errorCode == errorCode.value && r.errorCode != 0
    ensures r.TransportFailure? ==> r.statusCode == statusCode && !Is2xx(statusCode)
  {
    if Is2xx(statusCode) then
      var code := errorCode.GetOr(0);
      if code == 0 then Proceed else ApiFailure(code)
    else TransportFailure(statusCode)
  }

  /**
   * `photos_download`: download the album only when the reply is a success;
   * a failed reply downloads nothing.
   */
  method PhotosDownload(listing: Listing) returns (result: Outcome, downloads: seq<Download>)
    ensures !Is2xx(listing.statusCode) ==> result == RequestError(listing.statusCode) && downloads == []
    ensures Is2xx(listing.statusCode) && listing.errorCode.GetOr(0) != 0 ==>
      result == ResponseError(listing.errorCode.value) && downloads == []
    ensures Is2xx(listing.statusCode) && listing.errorCode.GetOr(0) == 0 && AllComplete(listing.items) ==>
      var p := PassUpTo(listing.items, |listing.items|);
      result == Downloaded(p.manifest) && downloads == p.downloads
    ensures Is2xx(listing.statusCode) && listing.errorCode.GetOr(0) == 0 && !AllComplete(listing.items) ==>
      exists c: nat :: IsFirstFailing(listing.items, c) && result == Failure(listing.items, c)
        && downloads == PassUpTo(listing.items, c).downloads
    ensures result.Downloaded? ==> |result.manifest| == |downloads|
  {
    match Dispatch(listing.statusCode, listing.errorCode)
    case Proceed =>
      result, downloads := DownloadFiles(listing.items);
    case ApiFailure(code) =>
      result, downloads := ResponseError(code), [];
    case TransportFailure(status) =>
      result, downloads := RequestError(status), [];
  }
}
