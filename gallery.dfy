/**
 * The screenshot gallery listing: the directory's entries, filtered to image
 * names and sorted newest first. The directory read and the per-file `stat`
 * calls are modelled by a `Listing` value.
 */
module Gallery {
  import opened Text

  /** The extensions the listing pattern `\.(jpg|jpeg|png|gif|webp)$` accepts, with the dot. */
  const ImageExtensions: seq<string> := [".jpg", ".jpeg", ".png", ".gif", ".webp"]

  predicate HasSuffix(s: string, suffix: string)
  {
    |suffix| <= |s| && s[|s| - |suffix|..] == suffix
  }

  /**
   * The case-insensitive pattern test: the name ends with one of the image
   * extensions, ignoring ASCII case (the only case folding that can reach
   * these letters under a non-Unicode `/i` pattern).
   */
  predicate IsImageName(name: string)
  {
    exists e :: e in ImageExtensions && HasSuffix(Lower(name), e)
  }

  /** Changing the case of a name does not change whether it is listed. */
  lemma ImageNameIgnoresCase(name: string)
    ensures IsImageName(Lower(name)) <==> IsImageName(name)
  {
    LowerIdempotent(name);
  }

  /** The extension a listed name ends with, in the name's own case, folds to an image extension. */
  lemma ImageNameSuffix(name: string, e: string)
    requires e in ImageExtensions && HasSuffix(Lower(name), e)
    ensures |e| <= |name| && Lower(name[|name| - |e|..]) == e
  {
    LowerSlice(name, |name| - |e|, |name|);
  }

  /** Each image extension is a dot followed by dot-free letters. */
  lemma ImageExtensionShape(x: string)
    requires x in ImageExtensions
    ensures OneDot(x)
  {
  }

  /** A dotted suffix is single-dotted. */
  predicate OneDot(ext: string)
  {
    |ext| >= 1 && ext[0] == '.' && forall i :: 1 <= i < |ext| ==> ext[i] != '.'
  }

  /**
   * A dot-free stem followed by an extension (empty, or one dot and no
   * other) is listed exactly when the extension folds to an image extension.
   */
  lemma DottedNameListed(stem: string, ext: string)
    requires '.' !in stem
    requires ext == [] || OneDot(ext)
    ensures IsImageName(stem + ext) <==> Lower(ext) in ImageExtensions
  {
    var name := stem + ext;
    LowerSlice(name, |stem|, |name|);
    assert name[|stem|..] == ext;
    if IsImageName(name) {
      var x :| x in ImageExtensions && HasSuffix(Lower(name), x);
      ImageExtensionShape(x);
      SuffixFromLastDot(stem, ext, x);
    }
  }

  /** A single-dotted suffix of a folded name starts at the name's only dot. */
  lemma SuffixFromLastDot(stem: string, ext: string, x: string)
    requires '.' !in stem
    requires ext == [] || OneDot(ext)
    requires OneDot(x) && HasSuffix(Lower(stem + ext), x)
    ensures |x| == |ext| && Lower(ext) == x
  {
    var name := stem + ext;
    var d := |name| - |x|;
    assert Lower(name)[d] == Lower(name)[d..][0] == x[0];
    assert name[d] == '.';
    forall i | 0 <= i < |stem| ensures name[i] != '.' {
      assert name[i] == stem[i];
    }
    assert name[d] == ext[d - |stem|];
    LowerSlice(name, |stem|, |name|);
    assert name[|stem|..] == ext;
  }

  /** `.filter(f => pattern.test(f))`: the image names, in directory order. */
  function Images(names: seq<string>): (r: seq<string>)
    ensures |r| <= |names|
    ensures forall k :: 0 <= k < |r| ==> IsImageName(r[k])
    ensures forall n :: n in r <==> n in names && IsImageName(n)
  {
    if names == [] then []
    else
      var rest := Images(names[1..]);
      assert forall n :: n in names <==> n == names[0] || n in names[1..];
      if IsImageName(names[0]) then [names[0]] + rest else rest
  }

  /** Filtering keeps the directory order: it distributes over concatenation. */
  lemma {:induction false} ImagesAppend(a: seq<string>, b: seq<string>)
    ensures Images(a + b) == Images(a) + Images(b)
  {
    if a == [] {
      assert a + b == b;
    } else {
      assert (a + b)[0] == a[0] && (a + b)[1..] == a[1..] + b;
      ImagesAppend(a[1..], b);
    }
  }

  /** Every name of `s` has a modification time in `mtime`. */
  predicate Stamped(s: seq<string>, mtime: map<string, int>)
  {
    forall k :: 0 <= k < |s| ==> s[k] in mtime
  }

  /** Newest first: modification times never increase along `s`. */
  predicate NewestFirst(s: seq<string>, mtime: map<string, int>)
  {
    Stamped(s, mtime) && forall i, j :: 0 <= i < j < |s| ==> mtime[s[i]] >= mtime[s[j]]
  }

  /**
   * Insert `x` before the first name that is not newer than it: the step of
   * a stable sort by the comparator `mtime(b) - mtime(a)` when `x` came
   * first in directory order.
   */
  function Insert(x: string, s: seq<string>, mtime: map<string, int>): (r: seq<string>)
    requires x in mtime && Stamped(s, mtime)
    ensures |r| == |s| + 1 && Stamped(r, mtime)
    ensures multiset(r) == multiset(s) + multiset{x}
    ensures r[0] == x || (s != [] && r[0] == s[0])
  {
    if s == [] || mtime[s[0]] <= mtime[x] then [x] + s
    else
      var rest := Insert(x, s[1..], mtime);
      assert s == [s[0]] + s[1..];
      [s[0]] + rest
  }

  lemma {:induction false} InsertSorted(x: string, s: seq<string>, mtime: map<string, int>)
    requires x in mtime && NewestFirst(s, mtime)
    ensures NewestFirst(Insert(x, s, mtime), mtime)
  {
    if s != [] && mtime[s[0]] > mtime[x] {
      InsertSorted(x, s[1..], mtime);
      var rest := Insert(x, s[1..], mtime);
      var r := [s[0]] + rest;
      forall i, j | 0 <= i < j < |r| ensures mtime[r[i]] >= mtime[r[j]] {
        if i == 0 {
          assert r[j] in multiset(rest);
          assert r[j] == x || r[j] in s[1..];
        }
      }
    }
  }

  /** `.sort(...)` on names that all have a modification time: an insertion sort, newest first. */
  function SortNewestFirst(s: seq<string>, mtime: map<string, int>): (r: seq<string>)
    requires Stamped(s, mtime)
    ensures multiset(r) == multiset(s)
  {
    if s == [] then []
    else
      assert s == [s[0]] + s[1..];
      Insert(s[0], SortNewestFirst(s[1..], mtime), mtime)
  }

  /** The sort orders by modification time and keeps exactly the names it was given. */
  lemma {:induction false} SortIsSorted(s: seq<string>, mtime: map<string, int>)
    requires Stamped(s, mtime)
    ensures NewestFirst(SortNewestFirst(s, mtime), mtime)
  {
    if s != [] {
      SortIsSorted(s[1..], mtime);
      InsertSorted(s[0], SortNewestFirst(s[1..], mtime), mtime);
    }
  }

  /**
   * What the directory read yields: it fails, or it gives the entries in
   * directory order together with the modification time of every entry
   * that can still be `stat`ed (a missing key means `statSync` throws).
   */
  datatype Listing = Unreadable | Entries(names: seq<string>, mtime: map<string, int>)

  /**
   * `GET /api/screenshots`: the image names, newest first; any exception on
   * the way gives the empty list. The comparator, and with it `statSync`,
   * runs only when there are at least two images.
   */
  function ListScreenshots(l: Listing): (r: seq<string>)
    ensures forall n :: n in r ==> l.Entries? && n in l.names && IsImageName(n)
    ensures l.Unreadable? ==> r == []
  {
    if l.Unreadable? then []
    else
      var images := Images(l.names);
      if |images| < 2 then images
      else if !Stamped(images, l.mtime) then []
      else
        assert forall n :: n in SortNewestFirst(images, l.mtime) <==> n in multiset(images);
        SortNewestFirst(images, l.mtime)
  }

  /**
   * When nothing throws, the listing holds exactly the image names, each
   * as often as the directory does, newest first.
   */
  lemma ListingCorrect(names: seq<string>, mtime: map<string, int>)
    requires Stamped(Images(names), mtime)
    ensures var r := ListScreenshots(Entries(names, mtime));
      && multiset(r) == multiset(Images(names))
      && (forall n :: n in r <==> n in names && IsImageName(n))
      && NewestFirst(r, mtime)
  {
    var images := Images(names);
    var r := ListScreenshots(Entries(names, mtime));
    if |images| >= 2 {
      SortIsSorted(images, mtime);
    }
    assert forall n :: n in r <==> n in multiset(images);
  }

  /** A stat failure on any image, once the comparator runs, empties the listing. */
  lemma StatFailureEmptiesListing(names: seq<string>, mtime: map<string, int>, n: string)
    requires n in Images(names) && n !in mtime
    requires |Images(names)| >= 2
    ensures ListScreenshots(Entries(names, mtime)) == []
  {
  }
}
