/** Video to numbered images and back: `video2images` names the frames
    `1.jpg, 2.jpg, ...` in read order, and `images2video` orders a
    directory listing by the number in each name. */
module ImageSequence {
  import opened Results
  import Decimal
  import opened ContainerFormat
  import opened FrameCopy

  /** `os.path.join(dir, name)` for a relative `name`. */
  function Join(dir: string, name: string): string {
    if dir == "" || dir[|dir| - 1] == '/' then dir + name else dir + "/" + name
  }

  /** What `Join` puts in front of the name. */
  function DirPrefix(dir: string): (p: string)
    ensures p == "" || p[|p| - 1] == '/'
  {
    if dir == "" || dir[|dir| - 1] == '/' then dir else dir + "/"
  }

  /** The file `video2images` writes the `c`-th frame to. */
  function ImageName(dir: string, c: nat): (p: string)
    ensures p == DirPrefix(dir) + Decimal.NatToString(c) + ".jpg"
  {
    Join(dir, Decimal.NatToString(c) + ".jpg")
  }

  /** The names of the first `n` frames, in read order. */
  function ImageNames(dir: string, n: nat): (names: seq<string>)
    ensures |names| == n
    ensures forall i :: 0 <= i < n ==> names[i] == ImageName(dir, i + 1)
  {
    seq(n, i requires 0 <= i < n => ImageName(dir, i + 1))
  }

  lemma ImageNameInjective(dir: string, a: nat, b: nat)
    requires ImageName(dir, a) == ImageName(dir, b)
    ensures a == b
  {
    var p := DirPrefix(dir);
    var sa, sb := Decimal.NatToString(a), Decimal.NatToString(b);
    assert |sa| == |sb|;
    assert sa == ImageName(dir, a)[|p|..|p| + |sa|];
    assert sb == ImageName(dir, b)[|p|..|p| + |sb|];
    Decimal.NatToStringInjective(a, b);
  }

  datatype Image<F> = Image(path: string, frame: F)

  /** Distinct frame numbers name distinct files. */
  lemma ImageNamesDistinct(dir: string, n: nat)
    ensures forall a, b :: 1 <= a < b <= n ==> ImageName(dir, a) != ImageName(dir, b)
  {
    forall a, b | 1 <= a < b <= n
      ensures ImageName(dir, a) != ImageName(dir, b)
    {
      if ImageName(dir, a) == ImageName(dir, b) {
        ImageNameInjective(dir, a, b);
      }
    }
  }

  /** `video2images`: each frame read before the first failed read is
      written, in read order, to `1.jpg`, `2.jpg`, ... in `dir`. */
  method Video2Images<F>(dir: string, outcomes: seq<Option<F>>) returns (images: seq<Image<F>>)
    ensures |images| == |TakeFrames(outcomes)|
    ensures forall i :: 0 <= i < |images| ==>
              images[i] == Image(ImageName(dir, i + 1), TakeFrames(outcomes)[i])
    // every file is written exactly once
    ensures forall i, j :: 0 <= i < j < |images| ==> images[i].path != images[j].path
  {
    images := [];
    ghost var frames: seq<F> := [];
    var c := 0;
    while c < |outcomes| && outcomes[c] != None
      invariant c <= |outcomes| && |images| == |frames| == c
      invariant forall i :: 0 <= i < c ==> outcomes[i] == Some(frames[i])
      invariant forall i :: 0 <= i < c ==> images[i] == Image(ImageName(dir, i + 1), frames[i])
    {
      var frame := outcomes[c].value;
      c := c + 1;   // images are numbered from 1
      images := images + [Image(ImageName(dir, c), frame)];
      frames := frames + [frame];
    }
    TakeFramesUnique(outcomes, frames);
    ImageNamesDistinct(dir, c);
  }

  /** `s.split(sep, 1)[0]`: everything before the first `sep`. */
  function BeforeFirst(s: string, sep: string): string
    requires |sep| > 0
    decreases |s|
  {
    if |s| < |sep| then s
    else if s[..|sep|] == sep then ""
    else [s[0]] + BeforeFirst(s[1..], sep)
  }

  /** `os.path.basename`: what follows the last `/`. */
  function Basename(p: string): (r: string)
    ensures |r| <= |p|
    decreases |p|
  {
    if |p| == 0 || p[|p| - 1] == '/' then ""
    else Basename(p[..|p| - 1]) + [p[|p| - 1]]
  }

  /** `split(sep, 1)[0]` is a prefix of `s`. */
  lemma {:induction false} BeforeFirstPrefix(s: string, sep: string)
    requires |sep| > 0
    ensures BeforeFirst(s, sep) <= s
    decreases |s|
  {
    if |s| >= |sep| && s[..|sep|] != sep {
      BeforeFirstPrefix(s[1..], sep);
      var t := BeforeFirst(s[1..], sep);
      assert BeforeFirst(s, sep) == [s[0]] + t;
      assert s == [s[0]] + s[1..];
    }
  }

  /** It ends where `sep` starts, or at the end of `s`. */
  lemma {:induction false} BeforeFirstStops(s: string, sep: string)
    requires |sep| > 0
    ensures |BeforeFirst(s, sep)| == |s| || OccursAt(s, |BeforeFirst(s, sep)|, sep)
    decreases |s|
  {
    if |s| >= |sep| && s[..|sep|] != sep {
      BeforeFirstStops(s[1..], sep);
      var t := BeforeFirst(s[1..], sep);
      assert |BeforeFirst(s, sep)| == |t| + 1;
      if |t| < |s[1..]| {
        assert s[|t| + 1..|t| + 1 + |sep|] == s[1..][|t|..|t| + |sep|];
      }
    }
  }

  /** No `sep` starts inside it, so the split is at the first occurrence. */
  lemma {:induction false} BeforeFirstIsFirst(s: string, sep: string)
    requires |sep| > 0
    ensures forall k: nat :: k < |BeforeFirst(s, sep)| ==> !OccursAt(s, k, sep)
    decreases |s|
  {
    if |s| >= |sep| && s[..|sep|] != sep {
      var rest := s[1..];
      BeforeFirstIsFirst(rest, sep);
      var t := BeforeFirst(rest, sep);
      assert BeforeFirst(s, sep) == [s[0]] + t;
      forall k: nat | k < |t| + 1
        ensures !OccursAt(s, k, sep)
      {
        if k == 0 {
          assert s[..|sep|] == s[0..|sep|];
        } else if k + |sep| <= |s| {
          var j: nat := k - 1;
          assert j < |BeforeFirst(rest, sep)|;
          assert !OccursAt(rest, j, sep);
          assert s[k..k + |sep|] == rest[j..j + |sep|];
        }
      }
    }
  }

  /** `os.path.basename` gives the last component: a suffix of `p` without
      `/`, preceded by `/` or by nothing. */
  lemma {:induction false} BasenameShape(p: string)
    ensures var r := Basename(p);
            && r == p[|p| - |r|..]
            && (forall i :: 0 <= i < |r| ==> r[i] != '/')
            && (|r| < |p| ==> p[|p| - |r| - 1] == '/')
    decreases |p|
  {
    if |p| > 0 && p[|p| - 1] != '/' {
      var q := p[..|p| - 1];
      BasenameShape(q);
      var t := Basename(q);
      assert Basename(p) == t + [p[|p| - 1]];
      assert p[|p| - |t| - 1..] == q[|q| - |t|..] + [p[|p| - 1]];
    }
  }

  /** The sort key of `images2video`:
      `int(basename(f.split(".jpg", 1)[0]))`; `int` may raise. */
  function SortKey(path: string): Result<int> {
    Decimal.ParseInt(Basename(BeforeFirst(path, ".jpg")))
  }

  /** The key as a number, for listings whose keys all parse. */
  function KeyOf(path: string): int {
    match SortKey(path)
    case Ok(k) => k
    case Err(_) => 0
  }

  /** `s` is in non-decreasing `key` order. */
  predicate SortedBy<T>(s: seq<T>, key: T -> int) {
    forall i, j :: 0 <= i < j < |s| ==> key(s[i]) <= key(s[j])
  }

  /** `s` is in increasing `key` order, without ties. */
  predicate StrictlyBy<T>(s: seq<T>, key: T -> int) {
    forall i, j :: 0 <= i < j < |s| ==> key(s[i]) < key(s[j])
  }

  /** Insertion after every element whose key is not larger, which keeps
      equal keys in their original order like Python's stable `sorted`. */
  function Insert<T>(x: T, s: seq<T>, key: T -> int): (r: seq<T>)
    requires SortedBy(s, key)
    ensures SortedBy(r, key)
    ensures multiset(r) == multiset(s) + multiset{x}
    ensures |r| == |s| + 1
    ensures r[0] == x || (|s| > 0 && r[0] == s[0])
    decreases |s|
  {
    if |s| == 0 then [x]
    else if key(x) < key(s[0]) then
      ConsSorted(x, s, key);
      [x] + s
    else
      var rest := Insert(x, s[1..], key);
      assert s == [s[0]] + s[1..];
      ConsSorted(s[0], rest, key);
      [s[0]] + rest
  }

  /** An element no larger than the head of a sorted sequence extends it. */
  lemma ConsSorted<T>(a: T, s: seq<T>, key: T -> int)
    requires SortedBy(s, key)
    requires |s| > 0 ==> key(a) <= key(s[0])
    ensures SortedBy([a] + s, key)
  {
    var r := [a] + s;
    forall i, j | 0 <= i < j < |r|
      ensures key(r[i]) <= key(r[j])
    {
      if i == 0 {
        assert r[j] == s[j - 1];
        assert j == 1 || key(s[0]) <= key(s[j - 1]);
      } else {
        assert r[i] == s[i - 1] && r[j] == s[j - 1];
      }
    }
  }

  /** `sorted(s, key=key)`. */
  function Sort<T>(s: seq<T>, key: T -> int): (r: seq<T>)
    ensures SortedBy(r, key)
    ensures multiset(r) == multiset(s)
    ensures |r| == |s|
    decreases |s|
  {
    if |s| == 0 then []
    else
      assert s == s[..|s| - 1] + [s[|s| - 1]];
      Insert(s[|s| - 1], Sort(s[..|s| - 1], key), key)
  }

  predicate AllKeysParse(s: seq<string>) {
    forall i :: 0 <= i < |s| ==> SortKey(s[i]).Ok?
  }

  /** The listing ordered by the numeric key: computing the keys raises
      `ValueError` on any name whose stem is not an integer. */
  function SortByKey(listing: seq<string>): (r: Result<seq<string>>)
    ensures r.Ok? <==> AllKeysParse(listing)
    ensures r.Err? ==> r.error == ValueError
    ensures r.Ok? ==> SortedBy(r.value, KeyOf) && multiset(r.value) == multiset(listing)
  {
    if AllKeysParse(listing) then Ok(Sort(listing, KeyOf)) else Err(ValueError)
  }

  /** What `images2video` does with a listing: nothing for no images, or
      the fourcc and the order in which images go to the writer. */
  datatype Encoding = NoImages | Encode(fourcc: string, order: seq<string>, writerReleased: bool)

  /** `images2video` with `listing` the names `glob` returned. */
  function Images2Video(listing: seq<string>, videoName: FileArg): (r: Result<Encoding>)
    // no images: return before the file name is looked at
    ensures |listing| == 0 ==> r == Ok(NoImages)
    ensures |listing| > 0 && PackagedFourcc(videoName).Err? ==> r == Err(ValueError)
    ensures |listing| > 0 && PackagedFourcc(videoName).Ok? ==>
              (r.Ok? <==> AllKeysParse(listing))
    ensures r.Err? ==> r.error == ValueError
    ensures r.Ok? && |listing| > 0 ==>
              && r.value.Encode?
              && r.value.fourcc == PackagedFourcc(videoName).value
              && SortedBy(r.value.order, KeyOf)
              && multiset(r.value.order) == multiset(listing)
              && r.value.writerReleased
  {
    if |listing| == 0 then Ok(NoImages)
    else
      match PackagedFourcc(videoName)
      case Err(e) => Err(e)
      case Ok(fourcc) =>
        match SortByKey(listing)
        case Err(e) => Err(e)
        case Ok(order) => Ok(Encode(fourcc, order, true))
  }

  /** `image2Video` of the stand-alone converter: the same order, its own
      fourcc spelling, and a writer that is never released. */
  function LegacyImage2Video(listing: seq<string>, videoPath: string): (r: Result<Encoding>)
    ensures |listing| == 0 ==> r == Ok(NoImages)
    ensures |listing| > 0 && LegacyFourcc(videoPath).Err? ==> r == Err(ValueError)
    ensures |listing| > 0 && LegacyFourcc(videoPath).Ok? ==>
              (r.Ok? <==> AllKeysParse(listing))
    ensures r.Err? ==> r.error == ValueError
    ensures r.Ok? && |listing| > 0 ==>
              && r.value.Encode?
              && r.value.fourcc == LegacyFourcc(videoPath).value
              && SortedBy(r.value.order, KeyOf)
              && multiset(r.value.order) == multiset(listing)
              && !r.value.writerReleased
  {
    if |listing| == 0 then Ok(NoImages)
    else
      match LegacyFourcc(videoPath)
      case Err(e) => Err(e)
      case Ok(fourcc) =>
        match SortByKey(listing)
        case Err(e) => Err(e)
        case Ok(order) => Ok(Encode(fourcc, order, false))
  }

  /** `sep` starts at position `k` of `s`. */
  predicate OccursAt(s: string, k: nat, sep: string) {
    k + |sep| <= |s| && s[k..k + |sep|] == sep
  }

  /** No `.jpg` anywhere in `s`. */
  predicate NoJpg(s: string) {
    forall k :: 0 <= k <= |s| ==> !OccursAt(s, k, ".jpg")
  }

  /** Dropping the first character shifts the positions where no `.jpg` starts. */
  lemma NoJpgShifts(s: string, n: nat)
    requires 0 < n <= |s|
    requires forall k :: 0 <= k < n ==> !OccursAt(s, k, ".jpg")
    ensures forall k :: 0 <= k < n - 1 ==> !OccursAt(s[1..], k, ".jpg")
  {
    forall k | 0 <= k < n - 1
      ensures !OccursAt(s[1..], k, ".jpg")
    {
      assert !OccursAt(s, k + 1, ".jpg");
      if k + 4 <= |s[1..]| {
        assert s[1..][k..k + 4] == s[k + 1..k + 5];
      }
    }
  }

  /** Splitting skips a front part in which no separator starts. */
  lemma {:induction false} BeforeFirstSkips(x: string, y: string)
    requires forall k :: 0 <= k < |x| ==> !OccursAt(x + y, k, ".jpg")
    ensures BeforeFirst(x + y, ".jpg") == x + BeforeFirst(y, ".jpg")
    decreases |x|
  {
    if |x| == 0 {
      assert x + y == y;
    } else {
      var s := x + y;
      assert !OccursAt(s, 0, ".jpg");
      assert s[1..] == x[1..] + y;
      NoJpgShifts(s, |x|);
      BeforeFirstSkips(x[1..], y);
      if |s| < 4 {
        assert BeforeFirst(s, ".jpg") == s;
        assert BeforeFirst(y, ".jpg") == y;
      } else {
        assert s[..4] != ".jpg";
        assert BeforeFirst(s, ".jpg") == [x[0]] + BeforeFirst(x[1..] + y, ".jpg");
        assert x == [x[0]] + x[1..];
      }
    }
  }

  /** The base name of a directory prefix followed by a plain name is that name. */
  lemma {:induction false} BasenameAfterPrefix(p: string, d: string)
    requires p == "" || p[|p| - 1] == '/'
    requires forall i :: 0 <= i < |d| ==> d[i] != '/'
    ensures Basename(p + d) == d
    decreases |d|
  {
    if |d| == 0 {
      assert p + d == p;
    } else {
      var front := d[..|d| - 1];
      assert (p + d)[..|p + d| - 1] == p + front;
      BasenameAfterPrefix(p, front);
      assert d == front + [d[|d| - 1]];
    }
  }

  lemma DirPrefixNoJpg(dir: string)
    requires NoJpg(dir)
    ensures NoJpg(DirPrefix(dir))
  {
    var p := DirPrefix(dir);
    forall k | 0 <= k <= |p|
      ensures !OccursAt(p, k, ".jpg")
    {
      if OccursAt(p, k, ".jpg") && k + 4 <= |dir| {
        assert p[k..k + 4] == dir[k..k + 4];
        assert OccursAt(dir, k, ".jpg");
      }
    }
  }

  /** No `.jpg` starts inside a `.jpg`-free prefix that ends in `/`. */
  lemma PrefixHasNoWindow(p: string, rest: string)
    requires NoJpg(p) && (p == "" || p[|p| - 1] == '/')
    ensures forall k :: 0 <= k < |p| ==> !OccursAt(p + rest, k, ".jpg")
  {
    var s := p + rest;
    forall k | 0 <= k < |p|
      ensures !OccursAt(s, k, ".jpg")
    {
      if k + 4 <= |p| {
        assert s[k..k + 4] == p[k..k + 4];
        assert !OccursAt(p, k, ".jpg");
      } else if k + 4 <= |s| {
        // the window covers the closing '/' of the prefix
        assert s[k..k + 4][|p| - 1 - k] == s[|p| - 1] == '/';
      }
    }
  }

  /** No `.jpg` starts inside a run of digits. */
  lemma DigitsHaveNoWindow(d: string, rest: string)
    requires Decimal.AllDigits(d)
    ensures forall k :: 0 <= k < |d| ==> !OccursAt(d + rest, k, ".jpg")
  {
    forall k | 0 <= k < |d|
      ensures !OccursAt(d + rest, k, ".jpg")
    {
      assert (d + rest)[k] == d[k];
      assert Decimal.IsDigit(d[k]);
    }
  }

  /** The part of the `c`-th image name before `.jpg`. */
  lemma ImageNameStem(dir: string, c: nat)
    requires NoJpg(dir)
    ensures BeforeFirst(ImageName(dir, c), ".jpg") == DirPrefix(dir) + Decimal.NatToString(c)
  {
    var p := DirPrefix(dir);
    var d := Decimal.NatToString(c);
    DirPrefixNoJpg(dir);
    assert ImageName(dir, c) == p + (d + ".jpg");
    PrefixHasNoWindow(p, d + ".jpg");
    BeforeFirstSkips(p, d + ".jpg");
    DigitsHaveNoWindow(d, ".jpg");
    BeforeFirstSkips(d, ".jpg");
    assert BeforeFirst(".jpg", ".jpg") == "";
    assert d + "" == d;
  }

  /** The key of the `c`-th image name is `c`, when the directory itself
      holds no `.jpg`. */
  lemma ImageNameKey(dir: string, c: nat)
    requires NoJpg(dir)
    ensures SortKey(ImageName(dir, c)) == Ok(c)
    ensures KeyOf(ImageName(dir, c)) == c
  {
    var d := Decimal.NatToString(c);
    ImageNameStem(dir, c);
    forall i | 0 <= i < |d|
      ensures d[i] != '/'
    {
      assert Decimal.IsDigit(d[i]);
    }
    BasenameAfterPrefix(DirPrefix(dir), d);
    Decimal.ParseShowsBack(c);
  }

  /** The first elements of two such listings agree. */
  lemma HeadsAgree<T>(a: seq<T>, b: seq<T>, key: T -> int)
    requires |a| > 0 && |b| > 0
    requires StrictlyBy(a, key) && SortedBy(b, key)
    requires multiset(a) == multiset(b)
    ensures a[0] == b[0]
  {
    assert a[0] in multiset(b);
    var m :| 0 <= m < |b| && b[m] == a[0];
    assert b[0] in multiset(a);
    var k :| 0 <= k < |a| && a[k] == b[0];
    assert key(b[0]) <= key(b[m]);
    assert k == 0;
  }

  lemma TailsAgree<T>(a: seq<T>, b: seq<T>)
    requires |a| > 0 && |b| > 0 && a[0] == b[0]
    requires multiset(a) == multiset(b)
    ensures multiset(a[1..]) == multiset(b[1..])
  {
    assert a == [a[0]] + a[1..];
    assert b == [b[0]] + b[1..];
    assert multiset(a[1..]) == multiset(a) - multiset{a[0]};
    assert multiset(b[1..]) == multiset(b) - multiset{b[0]};
  }

  /** Two listings with the same names, one strictly ordered by key and
      one ordered by key, are the same listing. */
  lemma {:induction false} SortedPermutationUnique<T>(a: seq<T>, b: seq<T>, key: T -> int)
    requires StrictlyBy(a, key) && SortedBy(b, key)
    requires multiset(a) == multiset(b)
    ensures a == b
    decreases |a|
  {
    assert |a| == |multiset(a)| == |multiset(b)| == |b|;
    if |a| > 0 {
      HeadsAgree(a, b, key);
      TailsAgree(a, b);
      SortedPermutationUnique(a[1..], b[1..], key);
      assert a == [a[0]] + a[1..];
      assert b == [b[0]] + b[1..];
    }
  }

  /** Round trip: however `glob` lists the images `video2images` wrote,
      sorting by the key gives them back in read order. */
  lemma NumberedImagesSortBack(dir: string, n: nat, listing: seq<string>)
    requires NoJpg(dir)
    requires multiset(listing) == multiset(ImageNames(dir, n))
    ensures SortByKey(listing) == Ok(ImageNames(dir, n))
  {
    var names := ImageNames(dir, n);
    forall i | 0 <= i < n
      ensures KeyOf(names[i]) == i + 1
    {
      ImageNameKey(dir, i + 1);
    }
    forall i | 0 <= i < |listing|
      ensures SortKey(listing[i]).Ok?
    {
      assert listing[i] in multiset(names);
      var j :| 0 <= j < n && names[j] == listing[i];
      ImageNameKey(dir, j + 1);
    }
    SortedPermutationUnique(names, Sort(listing, KeyOf), KeyOf);
  }

  /** Two names whose keys parse, listed out of order, are swapped. */
  lemma SwapSortsBack(x: string, y: string)
    requires SortKey(x).Ok? && SortKey(y).Ok? && KeyOf(x) < KeyOf(y)
    ensures SortByKey([y, x]) == Ok([x, y])
  {
    assert AllKeysParse([y, x]);
    PairSorts(x, y, KeyOf);
  }

  /** Sorting a pair listed against the key order swaps it. */
  lemma PairSorts<T>(x: T, y: T, key: T -> int)
    requires key(x) < key(y)
    ensures Sort([y, x], key) == [x, y]
  {
    var ordered := [x, y];
    assert multiset([y, x]) == multiset(ordered);
    SortedPermutationUnique(ordered, Sort([y, x], key), key);
  }

  /** The order is numeric: the `a`-th image goes before the `b`-th one for
      `a < b`, whatever their names compare as text. */
  lemma NumericOrder(dir: string, a: nat, b: nat)
    requires NoJpg(dir) && a < b
    ensures SortByKey([ImageName(dir, b), ImageName(dir, a)]) == Ok([ImageName(dir, a), ImageName(dir, b)])
  {
    ImageNameKey(dir, a);
    ImageNameKey(dir, b);
    SwapSortsBack(ImageName(dir, a), ImageName(dir, b));
  }

  /** `2.jpg` is written before `10.jpg`, although `"10.jpg" < "2.jpg"` as text. */
  lemma TwoBeforeTen()
    ensures SortByKey(["10.jpg", "2.jpg"]) == Ok(["2.jpg", "10.jpg"])
  {
    assert Decimal.NatToString(2) == "2";
    assert Decimal.NatToString(10) == "10";
    assert ImageName("", 2) == "2.jpg";
    assert ImageName("", 10) == "10.jpg";
    NumericOrder("", 2, 10);
  }

  /** The frames `video2images` wrote go back to the writer of
      `images2video` in the order they were read. */
  lemma ReadOrderRestored<F>(dir: string, frames: seq<F>, images: seq<Image<F>>,
                             listing: seq<string>, videoName: FileArg)
    requires NoJpg(dir)
    requires |images| == |frames|
    requires forall i :: 0 <= i < |images| ==> images[i] == Image(ImageName(dir, i + 1), frames[i])
    requires multiset(listing) == multiset(seq(|images|, i requires 0 <= i < |images| => images[i].path))
    requires PackagedFourcc(videoName).Ok?
    ensures |frames| == 0 ==> Images2Video(listing, videoName) == Ok(NoImages)
    ensures |frames| > 0 ==>
              && Images2Video(listing, videoName).Ok?
              && var order := Images2Video(listing, videoName).value.order;
                 && |order| == |frames|
                 && forall i :: 0 <= i < |frames| ==> order[i] == images[i].path
  {
    var paths := seq(|images|, i requires 0 <= i < |images| => images[i].path);
    assert paths == ImageNames(dir, |frames|);
    NumberedImagesSortBack(dir, |frames|, listing);
    if |frames| == 0 {
      assert |multiset(listing)| == 0;
    }
  }
}
